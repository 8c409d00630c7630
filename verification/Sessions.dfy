/** Runs of one router: what it keeps over any packets it survives, how its NAT tables follow
    the traffic, and how an answer finds its way back through it. */
module Sessions {
  import opened Bytes
  import opened Checksum
  import opened IpHeaders
  import opened RadixTree
  import opened Arp
  import opened Headers
  import opened Forwarding
  import Nat
  import NatRuns

  /** One packet received by the router. */
  datatype Event = Event(dev: nat, srcMac: Mac, packet: seq<byte>)

  ghost function After(s: State, e: Event): (r: Outcome)
    requires Valid(s) && e.dev < |s.devices|
    ensures Valid(r.state)
  {
    IpInput(s, e.dev, e.srcMac, e.packet)
  }

  /** The packets arrive on devices of the router, and none of them makes it panic: a panic
      ends the process, and with it the tables and every session. */
  ghost predicate Survives(s: State, events: seq<Event>)
    requires Valid(s)
    decreases |events|
  {
    events == [] ||
    (events[0].dev < |s.devices| && !After(s, events[0]).emission.Panicked?
     && Survives(After(s, events[0]).state, events[1..]))
  }

  /** The router's state after a sequence of received packets. */
  ghost function Inputs(s: State, events: seq<Event>): (r: State)
    requires Valid(s) && Survives(s, events)
    ensures Valid(r)
    decreases |events|
  {
    if events == [] then s else Inputs(After(s, events[0]).state, events[1..])
  }

  /** The frames it sends meanwhile. */
  ghost function Log(s: State, events: seq<Event>): seq<Frame>
    requires Valid(s) && Survives(s, events)
    decreases |events|
  {
    if events == [] then [] else Frames(After(s, events[0]).emission) + Log(After(s, events[0]).state, events[1..])
  }

  lemma {:induction false} RunConcat(s: State, a: seq<Event>, b: seq<Event>)
    requires Valid(s) && Survives(s, a) && Survives(Inputs(s, a), b)
    ensures Survives(s, a + b) && Inputs(s, a + b) == Inputs(Inputs(s, a), b)
    ensures Log(s, a + b) == Log(s, a) + Log(Inputs(s, a), b)
    decreases |a|
  {
    hide After;
    if a == [] {
      assert a + b == b;
      assert [] + Log(s, b) == Log(s, b);
    } else {
      assert (a + b)[0] == a[0] && (a + b)[1..] == a[1..] + b;
      RunConcat(After(s, a[0]).state, a[1..], b);
    }
  }

  /** A run is survived exactly when its first part is and then the rest. */
  lemma {:induction false} RunSplit(s: State, a: seq<Event>, b: seq<Event>)
    requires Valid(s)
    ensures Survives(s, a + b) <==> Survives(s, a) && Survives(Inputs(s, a), b)
    decreases |a|
  {
    hide After;
    if a == [] {
      assert a + b == b;
    } else {
      assert (a + b)[0] == a[0] && (a + b)[1..] == a[1..] + b;
      if a[0].dev < |s.devices| && !After(s, a[0]).emission.Panicked? {
        RunSplit(After(s, a[0]).state, a[1..], b);
      }
    }
  }

  lemma EmptyRun(s: State)
    requires Valid(s)
    ensures Survives(s, []) && Inputs(s, []) == s && Log(s, []) == []
  {
  }

  /** One more packet at the end of a run. */
  lemma OneInput(s: State, events: seq<Event>, e: Event)
    requires Valid(s) && Survives(s, events) && e.dev < |Inputs(s, events).devices|
    ensures var r := IpInput(Inputs(s, events), e.dev, e.srcMac, e.packet);
      && (Survives(s, events + [e]) <==> !r.emission.Panicked?)
      && (!r.emission.Panicked? ==>
            && Inputs(s, events + [e]) == r.state
            && Log(s, events + [e]) == Log(s, events) + (if r.emission.Sent? then [r.emission.frame] else []))
  {
    hide IpInput;
    var t := Inputs(s, events);
    assert [e][1..] == [];
    RunSplit(s, events, [e]);
    EmptyRun(After(t, e).state);
    if !After(t, e).emission.Panicked? {
      RunConcat(s, events, [e]);
      assert Frames(After(t, e).emission) + [] == Frames(After(t, e).emission);
    }
  }

  /** No packet of the run is one of those that end the program. */
  ghost predicate NoCrash(s: State, events: seq<Event>)
    requires Valid(s)
    decreases |events|
  {
    events == [] ||
    (events[0].dev < |s.devices| && !Crashes(s, events[0].dev, events[0].packet)
     && NoCrash(After(s, events[0]).state, events[1..]))
  }

  /** A router whose connected routes have devices survives exactly the runs without such a
      packet. */
  lemma {:induction false} SurvivesExactly(s: State, events: seq<Event>)
    requires Valid(s) && DevicesRouted(s.routes)
    ensures Survives(s, events) <==> NoCrash(s, events)
    decreases |events|
  {
    hide IpInput, Crashes;
    if events != [] && events[0].dev < |s.devices| {
      CrashesExactly(s, events[0].dev, events[0].srcMac, events[0].packet);
      InputKeeps(s, events[0]);
      SurvivesExactly(After(s, events[0]).state, events[1..]);
    }
  }

  // ---------- What every packet keeps ----------

  /** Every device keeps its addresses, the routes stay, and NAT tables only grow at their end. */
  ghost predicate Extends(s: State, t: State) {
    && |s.devices| == |t.devices| && s.routes == t.routes
    && forall i :: 0 <= i < |s.devices| ==> DeviceExtends(s.devices[i], t.devices[i])
  }

  ghost predicate DeviceExtends(d: Device, e: Device) {
    && d.address == e.address && d.broadcast == e.broadcast && (d.natdev.None? <==> e.natdev.None?)
    && (d.natdev.Some? ==>
          && d.natdev.value.outside == e.natdev.value.outside
          && forall proto :: d.natdev.value.tables.Get(proto) <= e.natdev.value.tables.Get(proto))
  }

  /** No packet moves or frees a NAT slot of any device. */
  lemma InputKeeps(s: State, e: Event)
    requires Valid(s) && e.dev < |s.devices|
    ensures Extends(s, After(s, e).state)
  {
    hide Forward, InputToOurs, ParseHeader, Payload, IsLocal;
    if Accepted(e.packet) {
      ForwardKeeps(Learn(s, e.dev, ParseHeader(e.packet).srcAddr, e.srcMac), e.dev,
                   ParseHeader(e.packet), Payload(e.packet));
    }
  }

  lemma ForwardKeeps(s: State, dev: nat, h: Header, payload: seq<byte>)
    requires Valid(s) && dev < |s.devices|
    ensures Extends(s, Forward(s, dev, h, payload).state)
  {
    hide Nat.NatExec, Transmit;
    if s.devices[dev].natdev.Some? && ProtocolOf(h.protocol).Some? {
      var conf := s.devices[dev].natdev.value;
      var c := Nat.Call(h.srcAddr, h.destAddr, payload, ProtocolOf(h.protocol).value, Nat.Outgoing);
      forall proto
        ensures conf.tables.Get(proto) <= Nat.NatExec(conf.outside, conf.tables, c).tables.Get(proto)
      {
        NatRuns.StepTables(conf.outside, conf.tables, c, proto);
      }
    }
  }

  lemma {:induction false} InputsKeep(s: State, events: seq<Event>)
    requires Valid(s) && Survives(s, events)
    ensures Extends(s, Inputs(s, events))
    decreases |events|
  {
    hide After;
    if events != [] {
      InputKeeps(s, events[0]);
      InputsKeep(After(s, events[0]).state, events[1..]);
      ExtendsTransitive(s, After(s, events[0]).state, Inputs(s, events));
    }
  }

  lemma ExtendsTransitive(s: State, t: State, u: State)
    requires Extends(s, t) && Extends(t, u)
    ensures Extends(s, u)
  {
    forall i | 0 <= i < |s.devices|
      ensures DeviceExtends(s.devices[i], u.devices[i])
    {
      assert DeviceExtends(s.devices[i], t.devices[i]) && DeviceExtends(t.devices[i], u.devices[i]);
    }
  }

  lemma {:induction false} FirstNatKept(d: seq<Device>, e: seq<Device>, destAddr: u32, i: nat)
    requires |d| == |e| && i <= |d|
    requires forall k :: 0 <= k < |d| ==> DeviceExtends(d[k], e[k])
    ensures FirstNat(d, destAddr, i) == FirstNat(e, destAddr, i)
    decreases |d| - i
  {
    if i < |d| {
      assert DeviceExtends(d[i], e[i]);
      FirstNatKept(d, e, destAddr, i + 1);
    }
  }

  lemma LocalKept(s: State, t: State, dev: nat, destAddr: u32)
    requires Extends(s, t) && dev < |s.devices|
    ensures IsLocal(s.devices, dev, destAddr) <==> IsLocal(t.devices, dev, destAddr)
  {
    assert DeviceExtends(s.devices[dev], t.devices[dev]);
    forall i | 0 <= i < |s.devices|
      ensures s.devices[i].address == t.devices[i].address && s.devices[i].broadcast == t.devices[i].broadcast
    {
      assert DeviceExtends(s.devices[i], t.devices[i]);
    }
  }

  // ---------- A router's run is a run of natExec ----------

  /** The natExec call that a received packet makes on the outgoing side of device i. */
  ghost function NatCall(s: State, e: Event, i: nat): seq<Nat.Call> {
    if e.dev == i < |s.devices| && s.devices[i].address != 0 && Accepted(e.packet)
       && !IsLocal(s.devices, i, ParseHeader(e.packet).destAddr)
       && ProtocolOf(ParseHeader(e.packet).protocol).Some?
    then [OutgoingCall(e.packet)] else []
  }

  ghost function NatCalls(s: State, events: seq<Event>, i: nat): seq<Nat.Call>
    decreases |events|
  {
    if events == [] then [] else NatCall(s, events[0], i) + NatCalls(s, events[1..], i)
  }

  lemma InputIsNatCall(s: State, e: Event, i: nat)
    requires Valid(s) && e.dev < |s.devices| && i < |s.devices| && s.devices[i].natdev.Some?
    requires !After(s, e).emission.Panicked?
    ensures var r := After(s, e).state;
      var conf, calls := s.devices[i].natdev.value, NatCall(s, e, i);
      && |r.devices| == |s.devices| && r.devices[i].natdev.Some?
      && NatRuns.Returns(conf.outside, conf.tables, calls)
      && r.devices[i].natdev.value.tables == NatRuns.Run(conf.outside, conf.tables, calls)
  {
    hide Nat.NatExec, ParseHeader, InputToOurs, Transmit, IsLocal;
    var conf, calls := s.devices[i].natdev.value, NatCall(s, e, i);
    if calls != [] {
      assert calls[1..] == [];
      var t := Nat.NatExec(conf.outside, conf.tables, calls[0]).tables;
      assert NatRuns.Returns(conf.outside, t, []);
      assert NatRuns.Run(conf.outside, conf.tables, calls) == NatRuns.Run(conf.outside, t, []);
    }
  }

  lemma {:induction false} NatRunConcat(outside: u32, t: Nat.Tables, a: seq<Nat.Call>, b: seq<Nat.Call>)
    requires Nat.Valid(t) && NatRuns.Returns(outside, t, a)
    requires NatRuns.Returns(outside, NatRuns.Run(outside, t, a), b)
    ensures NatRuns.Returns(outside, t, a + b)
    ensures NatRuns.Run(outside, t, a + b) == NatRuns.Run(outside, NatRuns.Run(outside, t, a), b)
    decreases |a|
  {
    hide Nat.NatExec;
    if a == [] {
      assert a + b == b;
    } else {
      assert (a + b)[1..] == a[1..] + b;
      NatRunConcat(outside, Nat.NatExec(outside, t, a[0]).tables, a[1..], b);
    }
  }

  lemma {:induction false} NatCallsKept(s: State, t: State, events: seq<Event>, i: nat)
    requires Extends(s, t)
    ensures NatCalls(s, events, i) == NatCalls(t, events, i)
    decreases |events|
  {
    hide IsLocal, ParseHeader;
    if events != [] {
      var e := events[0];
      if e.dev < |s.devices| {
        assert DeviceExtends(s.devices[e.dev], t.devices[e.dev]);
        if Accepted(e.packet) {
          LocalKept(s, t, e.dev, ParseHeader(e.packet).destAddr);
        }
      }
      NatCallsKept(s, t, events[1..], i);
    }
  }

  /** Every run that a router survives is, for each of its NAT devices, a run of natExec calls
      that return: those made by the packets in transit that came in on that device. So what
      holds of all natExec runs holds of the tables of a running router. */
  lemma {:induction false} InputsAreNatRun(s: State, events: seq<Event>, i: nat)
    requires Valid(s) && Survives(s, events) && i < |s.devices| && s.devices[i].natdev.Some?
    ensures var r, conf := Inputs(s, events), s.devices[i].natdev.value;
      && |r.devices| == |s.devices| && r.devices[i].natdev.Some?
      && NatRuns.Returns(conf.outside, conf.tables, NatCalls(s, events, i))
      && r.devices[i].natdev.value.outside == conf.outside
      && r.devices[i].natdev.value.tables == NatRuns.Run(conf.outside, conf.tables, NatCalls(s, events, i))
    decreases |events|
  {
    hide After, NatCall;
    if events != [] {
      var e := events[0];
      var s1 := After(s, e).state;
      InputKeeps(s, e);
      assert DeviceExtends(s.devices[i], s1.devices[i]);
      InputIsNatCall(s, e, i);
      InputsAreNatRun(s1, events[1..], i);
      NatCallsKept(s, s1, events[1..], i);
      var conf := s.devices[i].natdev.value;
      NatRunConcat(conf.outside, conf.tables, NatCall(s, e, i), NatCalls(s, events[1..], i));
    }
  }

  /** The endpoints that a device's packets in transit brought to the lookup of one table. */
  ghost function Endpoints(s: State, events: seq<Event>, i: nat, proto: Nat.Protocol): Nat.Locals {
    NatRuns.History(NatCalls(s, events, i), proto)
  }

  /** History refinement for a router: a NAT device configured with empty tables owns, after
      any run, exactly the first distinct local endpoints that its packets in transit brought,
      in order, up to the capacity of each table. */
  lemma RouterTablesAreHistory(s: State, events: seq<Event>, i: nat, proto: Nat.Protocol)
    requires Valid(s) && Survives(s, events)
    requires i < |s.devices| && s.devices[i].natdev.Some? && s.devices[i].natdev.value.tables == NatRuns.EMPTY
    ensures |Inputs(s, events).devices| == |s.devices| && Inputs(s, events).devices[i].natdev.Some?
    ensures Inputs(s, events).devices[i].natdev.value.tables.Get(proto)
      == NatRuns.Take(NatRuns.Distincts(Endpoints(s, events, i, proto)), Nat.Capacity(proto))
  {
    InputsAreNatRun(s, events, i);
    NatRuns.RunIsHistory(s.devices[i].natdev.value.outside, NatCalls(s, events, i), proto);
  }

  /** On the wire: the n-th distinct endpoint (from 0) of a NAT device configured with empty
      tables leaves a running router with global port 20000 + n (ICMP: identifier n). */
  lemma RouterPortIsHistory(s: State, events: seq<Event>, e: Event)
    requires Valid(s) && Survives(s, events)
    requires e.dev < |s.devices| && s.devices[e.dev].natdev.Some?
    requires s.devices[e.dev].natdev.value.tables == NatRuns.EMPTY
    requires var s1 := Inputs(s, events);
      e.dev < |s1.devices| && NatForwarded(s1, e.dev, e.srcMac, e.packet)
    ensures var c, out := OutgoingCall(e.packet), After(Inputs(s, events), e).emission.frame.packet;
      && NatRuns.Reaching(c).Some? && |out| >= 22 + Nat.PortOffset(c.proto, Nat.Outgoing)
      && var n := Nat.IndexOf(NatRuns.Distincts(Endpoints(s, events, e.dev, c.proto) + [NatRuns.Reaching(c).value]),
                              NatRuns.Reaching(c).value);
         && n < (if c.proto.Icmp? then 65535 else 40000)
         && Nat.PortField(c.proto, Nat.Outgoing, out[20..]) == if c.proto.Icmp? then n else 20000 + n
  {
    hide IpInput, ForwardBytes, ParseHeader, Nat.NatExec, Nat.PortField, NatRuns.Translated;
    hide NatRuns.Returns, NatRuns.Run, NatRuns.Distincts, NatRuns.History;
    InputsAreNatRun(s, events, e.dev);
    var s1, c, calls := Inputs(s, events), OutgoingCall(e.packet), NatCalls(s, events, e.dev);
    var conf := s1.devices[e.dev].natdev.value;
    NatForwardBytes(s1, e.dev, e.srcMac, e.packet);
    var r := Nat.NatExec(conf.outside, conf.tables, c);
    ForwardBytesHeader(ParseHeader(e.packet).(srcAddr := r.src, destAddr := r.dst), r.output.bytes);
    var _ := NatRuns.OutgoingSlot(conf.outside, conf.tables, c);
    NatRuns.MappingIsByHistory(conf.outside, calls, c);
  }

  // ---------- The way back ----------

  /** A reply as it arrives: addressed to the source that the packet out left with. */
  ghost predicate Answers(reply: seq<byte>, out: seq<byte>, proto: Nat.Protocol) {
    && Accepted(reply) && |out| >= 22 + Nat.PortOffset(proto, Nat.Outgoing)
    && ProtocolOf(ParseHeader(reply).protocol) == Some(proto)
    && ParseHeader(reply).destAddr == ParseHeader(out).srcAddr
    && Nat.ParsePorts(proto, Payload(reply)).Ports?
    && Nat.ParsePorts(proto, Payload(reply)).destPort == Nat.PortField(proto, Nat.Outgoing, out[20..])
  }

  /** The slot that a packet sent on by a NAT device leaves behind. */
  lemma ForwardedSlot(s: State, dev: nat, srcMac: Mac, packet: seq<byte>) returns (i: nat)
    requires Valid(s) && dev < |s.devices| && NatForwarded(s, dev, srcMac, packet)
    ensures NatRuns.Reaching(OutgoingCall(packet)).Some?
    ensures var r := IpInput(s, dev, srcMac, packet);
      var c, out := OutgoingCall(packet), r.emission.frame.packet;
      && |out| >= 22 + Nat.PortOffset(c.proto, Nat.Outgoing)
      && ParseHeader(out).srcAddr == s.devices[dev].natdev.value.outside
      && |r.state.devices| == |s.devices| && r.state.devices[dev].natdev.Some?
      && var l := r.state.devices[dev].natdev.value.tables.Get(c.proto);
         && i < |l| <= Nat.Capacity(c.proto) && l[i] == NatRuns.Reaching(c).value
         && Nat.PortField(c.proto, Nat.Outgoing, out[20..]) == Nat.GlobalPort(c.proto, i)
  {
    hide ForwardBytes, ParseHeader, Nat.NatExec, Transmit, Nat.PortField;
    var conf := s.devices[dev].natdev.value;
    var c := OutgoingCall(packet);
    var r := Nat.NatExec(conf.outside, conf.tables, c);
    NatForwardBytes(s, dev, srcMac, packet);
    i := NatRuns.OutgoingSlot(conf.outside, conf.tables, c);
    ForwardBytesHeader(ParseHeader(packet).(srcAddr := r.src, destAddr := r.dst), r.output.bytes);
  }

  /** The answer's segment for the local port: the well-formed payload with destination port
      (ICMP: identifier) and checksum replaced and every other byte kept, its own source port
      among them; translated as natExec promises. */
  ghost predicate AnswerSegment(proto: Nat.Protocol, payload: seq<byte>, port: u16, src: u32, dst: u32, b: seq<byte>) {
    && Nat.WellFormed(proto, payload) && Nat.ParsePorts(proto, payload).Ports?
    && Nat.Framed(proto, Nat.Incoming, payload, port, b)
    && Nat.ParsePorts(proto, b) == (if proto.Icmp? then Nat.Ports(port, port)
                                    else Nat.ParsePorts(proto, payload).(destPort := port))
    && NatRuns.Translated(proto, Nat.Incoming, payload, port, src, dst, b)
  }

  /** The natExec call that an answer causes. */
  function IncomingCall(packet: seq<byte>): Nat.Call
    requires Accepted(packet) && ProtocolOf(ParseHeader(packet).protocol).Some?
  {
    OutgoingCall(packet).(dir := Nat.Incoming)
  }

  /** What an answer causes in state s2, for the endpoint behind the NAT of device dev that sent
      the first packet. With a TTL that allows a hop and a sum that does not panic it is handed
      over to the local host through dev: as an IP frame when the longest-match route has a
      resolved next hop, otherwise as an ARP request. The frame goes to that neighbour, carries
      the local address and the translated segment, and is otherwise the answer's own header. */
  ghost predicate Returned(s2: State, dev: nat, origin: Nat.Endpoint, back: Event)
    requires Valid(s2) && back.dev < |s2.devices|
    requires Accepted(back.packet) && ProtocolOf(ParseHeader(back.packet).protocol).Some?
  {
    var c, hb := IncomingCall(back.packet), ParseHeader(back.packet);
    var r, route := After(s2, back), Search(s2.routes, origin.ip);
    var hop := NextHop(route, origin.ip);
    && (NatRuns.OddSum(c) ==> r.emission.Panicked?)
    && (!NatRuns.OddSum(c) && hb.ttl <= 1 ==> r.emission == Silent)
    && (!NatRuns.OddSum(c) && hb.ttl >= 2 ==> Handed(r.state, Some(dev), origin.ip, r.emission))
    && (!NatRuns.OddSum(c) && hb.ttl >= 2 && route.iptype.Connected? && !Resolved(r.state.arp, origin.ip) ==>
          route == NO_ROUTE || r.emission == Sent(ArpRequest(dev, origin.ip)))
    && (r.emission.Sent? && r.emission.frame.IpFrame? <==>
          hb.ttl >= 2 && !NatRuns.OddSum(c) && route != NO_ROUTE && Resolved(r.state.arp, hop))
    && (r.emission.Sent? && r.emission.frame.IpFrame? ==>
          var out := r.emission.frame.packet;
          && r.emission.frame.destMac == r.state.arp[hop].mac
          && r.emission.frame.dev == (if route.iptype.Connected? then dev else r.state.arp[hop].netdev)
          && |out| >= 20 && Verifies(WordSum(out[..20]))
          && ParseHeader(out) == hb.(ttl := hb.ttl - 1, destAddr := origin.ip,
                                     headerChecksum := ParseHeader(out).headerChecksum)
          && AnswerSegment(c.proto, c.payload, origin.port, hb.srcAddr, origin.ip, out[20..]))
  }

  /** Translation round trip through a router (section 4.1 of RFC 3022). A NAT device sends a
      packet on; then the router handles any other packets that it survives; then an answer
      to the translated source arrives. It is returned to the endpoint that sent the packet. */
  lemma AnswerReachesOrigin(s: State, first: Event, events: seq<Event>, back: Event)
    requires Valid(s) && first.dev < |s.devices| && NatForwarded(s, first.dev, first.srcMac, first.packet)
    requires Survives(After(s, first).state, events) && back.dev < |s.devices|
    requires var outside := s.devices[first.dev].natdev.value.outside;
      && FirstNat(s.devices, outside, 0) == first.dev
      && s.devices[back.dev].address != 0 && IsLocal(s.devices, back.dev, outside)
    requires Answers(back.packet, After(s, first).emission.frame.packet, OutgoingCall(first.packet).proto)
    ensures NatRuns.Reaching(OutgoingCall(first.packet)).Some?
    ensures var s2 := Inputs(After(s, first).state, events);
      |s2.devices| == |s.devices| && Returned(s2, first.dev, NatRuns.Reaching(OutgoingCall(first.packet)).value, back)
  {
    hide IpInput, Nat.NatExec, Nat.ParsePorts, Returned, FirstNat, IsLocal, ForwardBytes, NatForwarded;
    var s1 := After(s, first).state;
    var s2 := Inputs(s1, events);
    var i := ForwardedSlot(s, first.dev, first.srcMac, first.packet);
    InputKeeps(s, first);
    InputsKeep(s1, events);
    ExtendsTransitive(s, s1, s2);
    assert DeviceExtends(s1.devices[first.dev], s2.devices[first.dev]);
    assert DeviceExtends(s.devices[first.dev], s2.devices[first.dev]);
    assert DeviceExtends(s.devices[back.dev], s2.devices[back.dev]);
    var outside := s.devices[first.dev].natdev.value.outside;
    FirstNatKept(s.devices, s2.devices, outside, 0);
    LocalKept(s, s2, back.dev, outside);
    ReturnsFromSlot(s2, first.dev, i, back);
  }

  /** An answer to the global port of an occupied slot is returned to the slot's owner. */
  lemma ReturnsFromSlot(s: State, dev: nat, i: nat, back: Event)
    requires Valid(s) && dev < |s.devices| && back.dev < |s.devices| && s.devices[dev].natdev.Some?
    requires Accepted(back.packet) && ProtocolOf(ParseHeader(back.packet).protocol).Some?
    requires var c, conf := IncomingCall(back.packet), s.devices[dev].natdev.value;
      && c.dst == conf.outside && i < |conf.tables.Get(c.proto)| <= Nat.Capacity(c.proto)
      && Nat.ParsePorts(c.proto, c.payload).Ports?
      && Nat.ParsePorts(c.proto, c.payload).destPort == Nat.GlobalPort(c.proto, i)
      && FirstNat(s.devices, conf.outside, 0) == dev
      && s.devices[back.dev].address != 0 && IsLocal(s.devices, back.dev, conf.outside)
    ensures Returned(s, dev, s.devices[dev].natdev.value.tables.Get(IncomingCall(back.packet).proto)[i], back)
  {
    hide ForwardBytes, ParseHeader, Nat.NatExec, Nat.ParsePorts, Search, Payload, NatRuns.Translated, NatRuns.OddSum;
    hide After, IsLocal, Nat.Framed, WordSum, OutputAlong;
    var c, hb, conf := IncomingCall(back.packet), ParseHeader(back.packet), s.devices[dev].natdev.value;
    var s1 := Learn(s, back.dev, hb.srcAddr, back.srcMac);
    NatRuns.AnswerFindsSlot(conf.outside, conf.tables, i, c);
    var r := Nat.NatExec(conf.outside, conf.tables, c);
    AnswerIsNatReturn(s, dev, back);
    if r.output.Packet? && hb.ttl >= 2 {
      var h := hb.(srcAddr := r.src, destAddr := r.dst);
      AnswerIsFramed(c, conf.tables.Get(c.proto)[i], r.output.bytes);
      ForwardBytesHeader(h, r.output.bytes);
      OutputAlongFrame(s1, Search(s1.routes, r.dst), Some(dev), r.dst, ForwardBytes(h, r.output.bytes));
      OutputAlongHands(s1, Some(dev), r.dst, ForwardBytes(h, r.output.bytes));
    }
  }

  lemma AnswerIsNatReturn(s: State, dev: nat, back: Event)
    requires Valid(s) && back.dev < |s.devices| && dev < |s.devices| && s.devices[dev].natdev.Some?
    requires Accepted(back.packet) && ProtocolOf(ParseHeader(back.packet).protocol).Some?
    requires var dst := ParseHeader(back.packet).destAddr;
      FirstNat(s.devices, dst, 0) == dev && s.devices[back.dev].address != 0 && IsLocal(s.devices, back.dev, dst)
    ensures var c, hb := IncomingCall(back.packet), ParseHeader(back.packet);
      var s1 := Learn(s, back.dev, hb.srcAddr, back.srcMac);
      After(s, back) == Outcome(s1, NatReturn(s1, dev, c.proto, hb, c.payload))
  {
    hide ParseHeader, NatReturn, FirstNat, IsLocal;
  }

  lemma AnswerIsFramed(c: Nat.Call, e: Nat.Endpoint, b: seq<byte>)
    requires Nat.WellFormed(c.proto, c.payload)
    requires NatRuns.Translated(c.proto, Nat.Incoming, c.payload, e.port, c.src, e.ip, b)
    ensures Nat.Framed(c.proto, Nat.Incoming, c.payload, e.port, b)
  {
  }
}
