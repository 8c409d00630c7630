/** The router as it is in memory (ip.go, Chapter2.go): device list, routing trie, ARP table and
    NAT tables, refining module Forwarding. Transmission is a ghost log of emitted frames. */
module SoftwareRouter {
  import opened Bytes
  import opened Headers
  import opened IpHeaders
  import opened RadixTree
  import opened Arp
  import opened Forwarding
  import opened Sessions
  import opened NatTable
  import opened Boot
  import Nat

  /** A device with NAT configured and no translations yet. */
  function WithFreshNat(d: Device, outside: u32): Device {
    d.(natdev := Some(NatConf(outside, Nat.Tables([], [], []))))
  }

  class Router {
    var netDeviceList: seq<NetDevice>
    const iproute: RadixTreeNode
    const arpTable: ArpTable
    ghost var sent: seq<Frame>
    ghost var Repr: set<object>

    ghost predicate HasNat(i: nat)
      requires i < |netDeviceList|
      reads this`netDeviceList
    {
      netDeviceList[i].natdev.Some?
    }

    function NatList(i: nat): NatEntryList
      requires i < |netDeviceList| && netDeviceList[i].natdev.Some?
      reads this`netDeviceList
    {
      netDeviceList[i].natdev.value.natEntry
    }

    /** The NAT list of one device is well formed and apart from trie and ARP table. */
    ghost predicate NatOk(i: nat)
      requires i < |netDeviceList| && HasNat(i)
      reads this`netDeviceList, this`Repr, Repr
    {
      var l := NatList(i);
      && iproute in Repr && l in Repr && l.Repr <= Repr && arpTable !in l.Repr
      && iproute !in l.Repr && l.Repr !! iproute.nodes.Values
      && l.Valid() && l.outside == netDeviceList[i].natdev.value.outsideIpAddr
    }

    ghost predicate Valid()
      reads this`netDeviceList, this`Repr, Repr
    {
      && this !in Repr && iproute in Repr && iproute.nodes.Values <= Repr && arpTable in Repr
      && iproute.Valid() && arpTable.Valid()
      && (forall i :: 0 <= i < |netDeviceList| && HasNat(i) ==> NatOk(i))
      && (forall i, j :: 0 <= i < j < |netDeviceList| && HasNat(i) && HasNat(j) ==> NatList(i).Repr !! NatList(j).Repr)
    }

    ghost function ViewDevice(i: nat): Device
      requires i < |netDeviceList| && Valid()
      reads this`netDeviceList, this`Repr, Repr
    {
      var d := netDeviceList[i];
      Device(d.address, d.broadcast,
             if HasNat(i)
             then Some(NatConf(d.natdev.value.outsideIpAddr, (assert NatOk(i); NatList(i).tables)))
             else None)
    }

    ghost function ViewDevices(n: nat): (devices: seq<Device>)
      requires n <= |netDeviceList| && Valid()
      reads this`netDeviceList, this`Repr, Repr
      ensures |devices| == n && forall i :: 0 <= i < n ==> devices[i] == ViewDevice(i)
    {
      if n == 0 then [] else ViewDevices(n - 1) + [ViewDevice(n - 1)]
    }

    /** The state of module Forwarding that the memory represents. */
    ghost function View(): (s: State)
      requires Valid()
      reads this`netDeviceList, this`Repr, Repr
      ensures Forwarding.Valid(s)
    {
      assert forall i :: 0 <= i < |netDeviceList| && HasNat(i) ==> NatOk(i);
      State(ViewDevices(|netDeviceList|), iproute.routes, Arp.View(arpTable.list))
    }

    // ---------- Set-up ----------

    /** The zero values of the global variables. */
    constructor ()
      ensures Valid() && fresh(Repr) && sent == [] && netDeviceList == []
      ensures View() == State([], map[], map[])
    {
      iproute := new RadixTreeNode();
      arpTable := new ArpTable();
      netDeviceList, sent := [], [];
      new;
      Repr := {iproute, arpTable} + iproute.nodes.Values;
    }

    /** Chapter2.go: the static route, then every interface with its connected route. */
    method SetUp(interfaces: seq<NetDevice>)
      requires Valid() && netDeviceList == [] && View().routes == map[]
      requires forall i :: 0 <= i < |interfaces| ==> interfaces[i].natdev.None?
      modifies this`netDeviceList, this`Repr, Repr
      ensures Valid() && fresh(Repr - old(Repr))
      ensures netDeviceList == interfaces
      ensures View().routes == Replay(BootAdds(interfaces)) && DevicesRouted(View().routes)
      ensures forall a: u32 :: RoutedAtBoot(interfaces, a, Search(View().routes, a))
      ensures |View().devices| == |interfaces| && forall i :: 0 <= i < |interfaces| ==>
        View().devices[i] == Device(interfaces[i].address, interfaces[i].broadcast, None)
    {
      hide Replay, BootAdds, ConnectedRoute, Bits, Valid;
      AddRoute(STATIC_PREFIX, 24, STATIC_ROUTE);
      ReplayBootStart();
      assert interfaces[..0] == [];
      for i := 0 to |interfaces|
        invariant Valid() && fresh(Repr - old(Repr))
        invariant netDeviceList == interfaces[..i]
        invariant View().routes == Replay(BootAdds(interfaces[..i]))
      {
        RegisterDevice(interfaces[i]);
        assert interfaces[..i + 1] == interfaces[..i] + [interfaces[i]];
        ReplayBootStep(interfaces[..i], interfaces[i]);
      }
      assert interfaces[..|interfaces|] == interfaces;
      BootDevicesRouted(interfaces);
      forall a: u32
        ensures RoutedAtBoot(interfaces, a, Search(View().routes, a))
      {
        BootRoutes(interfaces, a);
      }
      DeviceView();
    }

    /** The view of devices without NAT is their addresses. */
    lemma DeviceView()
      requires Valid()
      ensures |View().devices| == |netDeviceList|
      ensures forall i :: 0 <= i < |netDeviceList| && netDeviceList[i].natdev.None? ==>
        View().devices[i] == Device(netDeviceList[i].address, netDeviceList[i].broadcast, None)
    {
    }

    /** One radixTreeAdd on the global routing table. */
    method AddRoute(prefix: u32, len: nat, entry: RouteEntry)
      requires Valid() && len <= 32
      modifies this`Repr, Repr
      ensures Valid() && fresh(Repr - old(Repr))
      ensures netDeviceList == old(netDeviceList)
      ensures View() == old(View()).(routes := old(View()).routes[Bits(prefix, len) := entry])
    {
      iproute.RadixTreeAdd(prefix, len, entry);
      Repr := Repr + iproute.nodes.Values;
      forall i | 0 <= i < |netDeviceList| && HasNat(i)
        ensures NatOk(i) && NatList(i).Repr == old(NatList(i).Repr) && NatList(i).tables == old(NatList(i).tables)
      {
        assert old(HasNat(i)) && old(NatOk(i));
      }
      assert View().devices == old(View()).devices;
    }

    /** Chapter2.go:77-87. */
    method RegisterDevice(dev: NetDevice)
      requires Valid() && dev.natdev.None?
      modifies this`netDeviceList, this`Repr, Repr
      ensures Valid() && fresh(Repr - old(Repr))
      ensures netDeviceList == old(netDeviceList) + [dev]
      ensures var add := ConnectedRoute(dev, |old(netDeviceList)|);
        && View().arp == old(View()).arp
        && View().routes == old(View()).routes[Bits(add.prefix, add.len) := add.entry]
    {
      var prefixLen := SubnetToPrefixLen(dev.netmask);
      AddRoute(And(dev.address, dev.netmask), prefixLen, RouteEntry(Connected, Some(|netDeviceList|), 0));
      Attach(dev);
    }

    method Attach(dev: NetDevice)
      requires Valid() && dev.natdev.None?
      modifies this`netDeviceList
      ensures Valid() && netDeviceList == old(netDeviceList) + [dev]
      ensures View().arp == old(View()).arp && View().routes == old(View()).routes
    {
      netDeviceList := netDeviceList + [dev];
      forall i | 0 <= i < |netDeviceList| && HasNat(i)
        ensures NatOk(i) && NatList(i) == old(NatList(i)) && i < |old(netDeviceList)|
      {
        assert old(HasNat(i)) && old(NatOk(i));
      }
      assert Valid();
    }

    /** nat.go: configureIPNat gives every device of that name fresh, empty tables. */
    method ConfigureIPNat(inside: string, outside: u32)
      requires Valid()
      modifies this`netDeviceList, this`Repr
      ensures Valid() && fresh(Repr - old(Repr)) && |netDeviceList| == |old(netDeviceList)|
      ensures View().arp == old(View()).arp && View().routes == old(View()).routes
      ensures forall i :: 0 <= i < |netDeviceList| ==>
        View().devices[i] == if old(netDeviceList)[i].name == inside
                             then WithFreshNat(old(View()).devices[i], outside)
                             else old(View()).devices[i]
      ensures forall i :: 0 <= i < |netDeviceList| && old(netDeviceList)[i].name == inside ==>
        View().devices[i] == Device(old(View()).devices[i].address, old(View()).devices[i].broadcast,
                                    Some(NatConf(outside, Nat.Tables([], [], []))))
    {
      for k := 0 to |netDeviceList|
        invariant Valid() && fresh(Repr - old(Repr)) && |netDeviceList| == |old(netDeviceList)|
        invariant View().arp == old(View()).arp && View().routes == old(View()).routes
        invariant forall i :: 0 <= i < |netDeviceList| ==> netDeviceList[i].name == old(netDeviceList)[i].name
        invariant forall i :: 0 <= i < |netDeviceList| ==>
          View().devices[i] == if i < k && old(netDeviceList)[i].name == inside
                               then WithFreshNat(old(View()).devices[i], outside)
                               else old(View()).devices[i]
      {
        if netDeviceList[k].name == inside {
          SetNat(k, outside);
        }
      }
    }

    /** nat.go:54-61, on one device. */
    method SetNat(k: nat, outside: u32)
      requires Valid() && k < |netDeviceList|
      modifies this`netDeviceList, this`Repr
      ensures Valid() && fresh(Repr - old(Repr))
      ensures |netDeviceList| == |old(netDeviceList)|
      ensures forall i :: 0 <= i < |netDeviceList| ==> netDeviceList[i].name == old(netDeviceList)[i].name
      ensures View().arp == old(View()).arp && View().routes == old(View()).routes
      ensures View().devices == old(View()).devices[k := WithFreshNat(old(View()).devices[k], outside)]
    {
      var list := new NatEntryList(outside);
      netDeviceList := netDeviceList[k := netDeviceList[k].(natdev := Some(NatDevice(outside, list)))];
      Repr := Repr + list.Repr;
      forall i | 0 <= i < |netDeviceList| && HasNat(i)
        ensures NatOk(i) && (i != k ==> NatList(i) == old(NatList(i)) && NatList(i).Repr <= old(Repr))
      {
        if i != k {
          assert old(HasNat(i)) && old(NatOk(i));
        }
      }
      assert Valid();
      forall i | 0 <= i < |netDeviceList| && i != k
        ensures ViewDevice(i) == old(ViewDevice(i))
      {
        assert HasNat(i) ==> old(HasNat(i)) && old(NatOk(i)) && NatOk(i);
      }
    }

    // ---------- Output ----------

    /** ethernet.go: ethernetOutput, as an entry of the log. */
    method Transmit(frame: Frame)
      requires Valid()
      modifies this`sent
      ensures Valid() && View() == old(View()) && sent == old(sent) + [frame]
    {
      sent := sent + [frame];
    }

    /** ip.go: ipPacketOutputToHost; not ok when Go panics. */
    method IpPacketOutputToHost(dev: Option<nat>, destAddr: u32, packet: seq<byte>) returns (ok: bool)
      requires Valid()
      modifies this`sent
      ensures Valid() && View() == old(View())
      ensures var e := OutputToHost(View().arp, dev, destAddr, packet);
        ok == !e.Panicked? && sent == old(sent) + Frames(e)
      ensures dev.None? ==> !ok && sent == old(sent)
      ensures var arp := View().arp;
        dev.Some? ==> ok && sent == old(sent) + [
          if destAddr in arp && arp[destAddr].mac != [0, 0, 0, 0, 0, 0]
          then IpFrame(dev.value, arp[destAddr].mac, packet) else ArpRequest(dev.value, destAddr)]
    {
      var destMacAddr, _ := arpTable.SearchArpTableEntry(destAddr);
      if dev.None? {
        return false;
      }
      if destMacAddr == NO_MAC {
        Transmit(ArpRequest(dev.value, destAddr));
      } else {
        Transmit(IpFrame(dev.value, destMacAddr, packet));
      }
      return true;
    }

    /** ip.go: ipPacketOutputToNexthop. */
    method IpPacketOutputToNexthop(nextHop: u32, packet: seq<byte>) returns (ok: bool)
      requires Valid()
      modifies this`sent
      ensures Valid() && View() == old(View())
      ensures var e := OutputToNexthop(View().arp, View().routes, nextHop, packet);
        ok == !e.Panicked? && sent == old(sent) + Frames(e)
    {
      var destMacAddr, dev := arpTable.SearchArpTableEntry(nextHop);
      if destMacAddr == NO_MAC {
        var routeToNextHop := iproute.RadixTreeSearch(nextHop);
        if !(routeToNextHop == NO_ROUTE || routeToNextHop.iptype != Connected) {
          if routeToNextHop.netdev.None? {
            return false;
          }
          Transmit(ArpRequest(routeToNextHop.netdev.value, nextHop));
        }
      } else {
        Transmit(IpFrame(dev.value, destMacAddr, packet));
      }
      return true;
    }

    /** Output along a route that has been looked up (ip.go:189-196, 321-329, 338-349). */
    method OutputRoute(route: RouteEntry, hostDev: Option<nat>, destAddr: u32, packet: seq<byte>) returns (ok: bool)
      requires Valid()
      modifies this`sent
      ensures Valid() && View() == old(View())
      ensures var e := OutputAlong(View(), route, hostDev, destAddr, packet);
        ok == !e.Panicked? && sent == old(sent) + Frames(e)
    {
      if route == NO_ROUTE {
        return true;
      }
      if route.iptype == Connected {
        ok := IpPacketOutputToHost(hostDev, destAddr, packet);
      } else {
        ok := IpPacketOutputToNexthop(route.nexthop, packet);
      }
    }

    /** The longest match in the global routing table. */
    method LookUp(destAddr: u32) returns (route: RouteEntry)
      requires Valid()
      ensures route == Search(View().routes, destAddr)
    {
      route := iproute.RadixTreeSearch(destAddr);
    }

    /** ip.go: ipPacketEncapsulateOutput. */
    method IpPacketEncapsulateOutput(destAddr: u32, srcAddr: u32, payload: seq<byte>, protocolType: byte)
      returns (ok: bool)
      requires Valid()
      modifies this`sent
      ensures Valid() && View() == old(View())
      ensures var e := Encapsulate(View(), destAddr, srcAddr, payload, protocolType);
        ok == !e.Panicked? && sent == old(sent) + Frames(e)
    {
      hide HeaderBytes, Stamped, OutputAlong, Search, Valid;
      var totalLength := 20 + |payload|;
      var ipHeader := new IpHeader(Header(4, 20 / 4, 0, totalLength % 0x1_0000, 0xf80c, 0x4000, 0x40,
                                          protocolType, 0, srcAddr, destAddr));
      var bytes := ipHeader.ToPacket(true);
      var ipPacket := bytes + payload;
      var route := LookUp(destAddr);
      ok := OutputRoute(route, route.netdev, destAddr, ipPacket);
    }

    // ---------- NAT ----------

    /** natExec on the tables of device i, seen from the router: those tables change as the
        specification says and nothing else in the router does. */
    method NatExecOn(i: nat, ipHeader: IpHeader, buf: array<byte>, lo: nat, hi: nat,
                     proto: Nat.Protocol, direction: Nat.Direction) returns (output: Nat.Output)
      requires Valid() && i < |netDeviceList| && HasNat(i)
      requires lo <= hi <= buf.Length && ipHeader !in Repr && buf !in Repr
      modifies ipHeader, buf, this`Repr, Repr
      ensures Valid() && fresh(Repr - old(Repr)) && netDeviceList == old(netDeviceList)
      ensures var conf := old(View()).devices[i].natdev.value;
        var c := Nat.Call(old(ipHeader.srcAddr), old(ipHeader.destAddr), old(buf[lo..hi]), proto, direction);
        var r := Nat.NatExec(conf.outside, conf.tables, c);
        && output == r.output && View() == WithTables(old(View()), i, r.tables)
        && ipHeader.Value() == old(ipHeader.Value()).(srcAddr := r.src, destAddr := r.dst)
        && buf[lo..hi] == Nat.BufferAfter(conf.outside, conf.tables, c)
      ensures buf[..lo] == old(buf[..lo]) && buf[hi..] == old(buf[hi..])
    {
      hide Nat.NatExec, Nat.BufferAfter;
      assert NatOk(i);
      output := NatExec(ipHeader, buf, lo, hi, netDeviceList[i].natdev.value, proto, direction);
      Repr := Repr + NatList(i).Repr;
      forall j | 0 <= j < |netDeviceList| && HasNat(j)
        ensures NatOk(j)
        ensures j != i ==> NatList(j).Repr == old(NatList(j).Repr) && NatList(j).tables == old(NatList(j).tables)
      {
        assert old(HasNat(j)) && old(NatOk(j));
        assert j < i ==> old(NatList(j).Repr) !! old(NatList(i).Repr);
        assert i < j ==> old(NatList(i).Repr) !! old(NatList(j).Repr);
      }
    }

    // ---------- Input ----------

    /** TTL decrement, serialisation and output of a packet in transit (ip.go:180-196, 265-270). */
    method SendOn(ipHeader: IpHeader, data: seq<byte>, route: RouteEntry, hostDev: Option<nat>) returns (ok: bool)
      requires Valid() && ipHeader !in Repr && ipHeader.ttl >= 1
      modifies this`sent, ipHeader
      ensures Valid() && View() == old(View())
      ensures var h := old(ipHeader.Value());
        var e := OutputAlong(View(), route, hostDev, h.destAddr, ForwardBytes(h, data));
        ok == !e.Panicked? && sent == old(sent) + Frames(e)
    {
      hide OutputAlong, HeaderBytes, Stamped;
      ipHeader.ttl := ipHeader.ttl - 1;
      var header := ipHeader.ToPacket(true);
      var forwardPacket := header + data;
      ok := OutputRoute(route, hostDev, ipHeader.destAddr, forwardPacket);
    }

    /** Route lookup, TTL check and output (ip.go:169-196). */
    method TransmitPacket(ipHeader: IpHeader, data: seq<byte>) returns (ok: bool)
      requires Valid() && ipHeader !in Repr
      modifies this`sent, ipHeader
      ensures Valid() && View() == old(View())
      ensures var e := Forwarding.Transmit(View(), old(ipHeader.Value()), data);
        ok == !e.Panicked? && sent == old(sent) + Frames(e)
    {
      hide OutputAlong, ForwardBytes, Search;
      var route := LookUp(ipHeader.destAddr);
      if route == NO_ROUTE || ipHeader.ttl <= 1 {
        return true;
      }
      ok := SendOn(ipHeader, data, route, route.netdev);
    }

    /** The transit part of ipInput (ip.go:141-196). */
    method ForwardPacket(inputdev: nat, ipHeader: IpHeader, buf: array<byte>, lo: nat, hi: nat) returns (ok: bool)
      requires Valid() && inputdev < |netDeviceList|
      requires lo <= hi <= buf.Length && ipHeader !in Repr && buf !in Repr
      modifies this`sent, this`Repr, Repr, ipHeader, buf
      ensures Valid() && fresh(Repr - old(Repr)) && netDeviceList == old(netDeviceList)
      ensures var r := Forward(old(View()), inputdev, old(ipHeader.Value()), old(buf[lo..hi]));
        ok == !r.emission.Panicked? && sent == old(sent) + Frames(r.emission) && View() == r.state
      ensures buf[lo..hi] == TransitAfter(old(View()), inputdev, old(ipHeader.Value()), old(buf[lo..hi]))
      ensures buf[..lo] == old(buf[..lo]) && buf[hi..] == old(buf[hi..])
    {
      hide Nat.NatExec, Forwarding.Transmit, WithTables, Nat.BufferAfter;
      assert HasNat(inputdev) == View().devices[inputdev].natdev.Some?;
      var proto := ProtocolOf(ipHeader.protocol);
      if netDeviceList[inputdev].natdev.None? {
        ok := TransmitPacket(ipHeader, buf[lo..hi]);
      } else if proto.None? {
        ok := TransmitPacket(ipHeader, []);
      } else {
        var output := NatExecOn(inputdev, ipHeader, buf, lo, hi, proto.value, Nat.Outgoing);
        match output
        case Error(_) => ok := true;
        case Panic => ok := false;
        case Packet(bytes) => ok := TransmitPacket(ipHeader, bytes);
      }
    }

    /** The device scan of ipInput (ip.go:124-139). */
    method IsOurs(inputdev: nat, destAddr: u32) returns (ours: bool)
      requires Valid() && inputdev < |netDeviceList|
      ensures ours == IsLocal(View().devices, inputdev, destAddr)
    {
      ghost var devices := View().devices;
      assert devices[inputdev] == ViewDevice(inputdev);
      if destAddr == IP_ADDRESS_LIMITED_BROADCAST || netDeviceList[inputdev].address == destAddr {
        return true;
      }
      for i := 0 to |netDeviceList|
        invariant forall j :: 0 <= j < i ==> devices[j].address != destAddr && devices[j].broadcast != destAddr
      {
        assert devices[i] == ViewDevice(i);
        if netDeviceList[i].address == destAddr || netDeviceList[i].broadcast == destAddr {
          return true;
        }
      }
      return false;
    }

    /** Learns an unresolved source address (ip.go:118-121). */
    method LearnSource(inputdev: nat, srcAddr: u32, srcMac: Mac)
      requires Valid()
      modifies Repr
      ensures Valid() && View() == Learn(old(View()), inputdev, srcAddr, srcMac)
      ensures View().devices == old(View()).devices
    {
      var macaddr, _ := arpTable.SearchArpTableEntry(srcAddr);
      if macaddr == NO_MAC {
        arpTable.AddArpTableEntry(inputdev, srcAddr, srcMac);
        forall i | 0 <= i < |netDeviceList| && HasNat(i)
          ensures NatOk(i) && NatList(i).Repr == old(NatList(i).Repr) && NatList(i).tables == old(NatList(i).tables)
        {
          assert old(HasNat(i)) && old(NatOk(i));
        }
        assert View().devices == old(View()).devices;
      }
    }

    /** ICMP.go: icmpInput. */
    method IcmpInput(srcAddr: u32, destAddr: u32, icmpPacket: seq<byte>) returns (ok: bool)
      requires Valid()
      modifies this`sent
      ensures Valid() && View() == old(View())
      ensures var e := Forwarding.IcmpInput(View(), srcAddr, destAddr, icmpPacket);
        ok == !e.Panicked? && sent == old(sent) + Frames(e)
    {
      hide Encapsulate, ReplySpec;
      var icmpmsg := ParseIcmp(icmpPacket);
      if icmpmsg.None? {
        return false;
      }
      if icmpmsg.value.icmpType == ICMP_TYPE_ECHO_REQUEST {
        var reply := ReplyPacket(icmpmsg.value);
        if reply.None? {
          return false;
        }
        ok := IpPacketEncapsulateOutput(srcAddr, destAddr, reply.value, IP_PROTOCOL_NUM_ICMP);
      } else {
        ok := true;
      }
    }

    /** The way back through the NAT of device i (ip.go:240-271). */
    method ReturnPacket(i: nat, proto: Nat.Protocol, ipHeader: IpHeader, buf: array<byte>, lo: nat, hi: nat)
      returns (ok: bool)
      requires Valid() && i < |netDeviceList| && HasNat(i)
      requires lo <= hi <= buf.Length && ipHeader !in Repr && buf !in Repr
      modifies this`sent, this`Repr, Repr, ipHeader, buf
      ensures Valid() && fresh(Repr - old(Repr)) && netDeviceList == old(netDeviceList)
      ensures var e := NatReturn(old(View()), i, proto, old(ipHeader.Value()), old(buf[lo..hi]));
        ok == !e.Panicked? && sent == old(sent) + Frames(e) && View() == old(View())
      ensures var conf := old(View()).devices[i].natdev.value;
        var c := Nat.Call(old(ipHeader.srcAddr), old(ipHeader.destAddr), old(buf[lo..hi]), proto, Nat.Incoming);
        buf[lo..hi] == Nat.BufferAfter(conf.outside, conf.tables, c)
      ensures buf[..lo] == old(buf[..lo]) && buf[hi..] == old(buf[hi..])
    {
      hide Nat.NatExec, OutputAlong, ForwardBytes, Search, Nat.BufferAfter;
      ghost var before := View();
      ghost var c := Nat.Call(ipHeader.srcAddr, ipHeader.destAddr, buf[lo..hi], proto, Nat.Incoming);
      IncomingKeepsTables(before, i, c);
      var output := NatExecOn(i, ipHeader, buf, lo, hi, proto, Nat.Incoming);
      match output
      case Error(_) => ok := true;
      case Panic => ok := false;
      case Packet(destPacket) =>
        if ipHeader.ttl <= 1 {
          return true;
        }
        var route := LookUp(ipHeader.destAddr);
        ok := SendOn(ipHeader, destPacket, route, Some(i));
    }

    /** ip.go: ipInputToOurs. */
    method IpInputToOurs(ipHeader: IpHeader, buf: array<byte>, lo: nat, hi: nat) returns (ok: bool)
      requires Valid() && lo <= hi <= buf.Length && ipHeader !in Repr && buf !in Repr
      modifies this`sent, this`Repr, Repr, ipHeader, buf
      ensures Valid() && fresh(Repr - old(Repr)) && netDeviceList == old(netDeviceList)
      ensures var e := InputToOurs(old(View()), old(ipHeader.Value()), old(buf[lo..hi]));
        ok == !e.Panicked? && sent == old(sent) + Frames(e) && View() == old(View())
      ensures buf[lo..hi] == LocalAfter(old(View()), old(ipHeader.Value()), old(buf[lo..hi]))
      ensures buf[..lo] == old(buf[..lo]) && buf[hi..] == old(buf[hi..])
    {
      hide NatReturn, Forwarding.IcmpInput, Nat.BufferAfter;
      ghost var devices := View().devices;
      var proto := ProtocolOf(ipHeader.protocol);
      for i := 0 to |netDeviceList|
        invariant proto.None? || FirstNat(devices, ipHeader.destAddr, i) == FirstNat(devices, ipHeader.destAddr, 0)
      {
        assert devices[i] == ViewDevice(i);
        if netDeviceList[i].natdev.Some? && netDeviceList[i].natdev.value.outsideIpAddr == ipHeader.destAddr {
          if proto.Some? {
            ok := ReturnPacket(i, proto.value, ipHeader, buf, lo, hi);
            return;
          }
        }
      }
      if ipHeader.protocol == IP_PROTOCOL_NUM_ICMP {
        ok := IcmpInput(ipHeader.srcAddr, ipHeader.destAddr, buf[lo..hi]);
      } else {
        ok := true;
      }
    }

    /** What ipInput does with an accepted packet (ip.go:116-196). */
    method Process(inputdev: nat, srcMac: Mac, ipHeader: IpHeader, packet: array<byte>, lo: nat, hi: nat)
      returns (ok: bool)
      requires Valid() && inputdev < |netDeviceList| && packet !in Repr && ipHeader !in Repr
      requires lo <= hi <= packet.Length
      modifies this`sent, this`Repr, Repr, ipHeader, packet
      ensures Valid() && fresh(Repr - old(Repr)) && netDeviceList == old(netDeviceList)
      ensures var s, h, payload := old(View()), old(ipHeader.Value()), old(packet[lo..hi]);
        var s1 := Learn(s, inputdev, h.srcAddr, srcMac);
        var r := if IsLocal(s.devices, inputdev, h.destAddr) then Outcome(s1, InputToOurs(s1, h, payload))
                 else Forward(s1, inputdev, h, payload);
        ok == !r.emission.Panicked? && sent == old(sent) + Frames(r.emission) && View() == r.state
      ensures packet[lo..hi] == PayloadAfter(old(View()), inputdev, old(ipHeader.Value()), old(packet[lo..hi]))
      ensures packet[..lo] == old(packet[..lo]) && packet[hi..] == old(packet[hi..])
    {
      hide Forward, InputToOurs, IsLocal, Learn, Nat.BufferAfter, FirstNat;
      LearnSource(inputdev, ipHeader.srcAddr, srcMac);
      var ours := IsOurs(inputdev, ipHeader.destAddr);
      if ours {
        ok := IpInputToOurs(ipHeader, packet, lo, hi);
      } else {
        ok := ForwardPacket(inputdev, ipHeader, packet, lo, hi);
      }
    }

    /** The length checks and the parse of ipInput (ip.go:86-115). */
    method ParseAccepted(packet: array<byte>) returns (h: Option<Header>)
      ensures h.Some? <==> Accepted(packet[..])
      ensures h.Some? ==>
        && h.value == ParseHeader(packet[..])
        && 4 * (h.value.headerLen as int) <= h.value.totalLen <= packet.Length
        && Payload(packet[..]) == packet[4 * (h.value.headerLen as int)..h.value.totalLen]
    {
      if packet.Length < 20 {
        return None;
      }
      var header := ParseHeader(packet[..]);
      var headerLen := 4 * (header.headerLen as int);
      if header.headerLen < 5 || packet.Length < headerLen {
        return None;
      }
      var totalLen := header.totalLen;
      if totalLen < headerLen || totalLen > packet.Length {
        return None;
      }
      return Some(header);
    }

    /** ip.go: ipInput. The state, the log and a Go panic (not ok) are those of the
        specification, for every packet, device and state. */
    method IpInput(inputdev: nat, srcMac: Mac, packet: array<byte>) returns (ok: bool)
      requires Valid() && inputdev < |netDeviceList| && packet !in Repr
      modifies this`sent, this`Repr, Repr, packet
      ensures Valid() && fresh(Repr - old(Repr)) && netDeviceList == old(netDeviceList)
      ensures var r := Forwarding.IpInput(old(View()), inputdev, srcMac, old(packet[..]));
        && ok == !r.emission.Panicked? && View() == r.state
        && sent == old(sent) + (if r.emission.Sent? then [r.emission.frame] else [])
      ensures packet[..] == PacketAfter(old(View()), inputdev, old(packet[..]))
    {
      hide Forward, InputToOurs, IsLocal, Learn, ParseHeader, Accepted, Payload, PayloadAfter;
      assert View().devices[inputdev] == ViewDevice(inputdev);
      if netDeviceList[inputdev].address == 0 {
        return true;
      }
      var h := ParseAccepted(packet);
      if h.None? {
        return true;
      }
      var ipHeader := new IpHeader(h.value);
      var headerLen := 4 * (ipHeader.headerLen as int);
      var totalLen := ipHeader.totalLen;
      ghost var before := packet[..];
      ok := Process(inputdev, srcMac, ipHeader, packet, headerLen, totalLen);
      assert packet[..] == packet[..headerLen] + packet[headerLen..totalLen] + packet[totalLen..];
      assert before[..headerLen] == packet[..headerLen] && before[totalLen..] == packet[totalLen..];
    }

    /** One packet, received in a buffer of its own (net.go:42-59). */
    method ReceivePacket(e: Event) returns (ok: bool)
      requires Valid() && e.dev < |netDeviceList|
      modifies this`sent, this`Repr, Repr
      ensures Valid() && fresh(Repr - old(Repr)) && netDeviceList == old(netDeviceList)
      ensures |View().devices| == |netDeviceList|
      ensures var r := Forwarding.IpInput(old(View()), e.dev, e.srcMac, e.packet);
        && ok == !r.emission.Panicked? && View() == r.state
        && sent == old(sent) + (if r.emission.Sent? then [r.emission.frame] else [])
    {
      hide Forwarding.IpInput, PacketAfter;
      var packet := new byte[|e.packet|](i requires 0 <= i < |e.packet| => e.packet[i]);
      assert packet[..] == e.packet;
      ok := IpInput(e.dev, e.srcMac, packet);
    }

    /** A run: packets received one after the other, until one panics. State and log are those
        of the run; it ends early exactly when the router does not survive it. */
    method Receive(events: seq<Event>) returns (ok: bool)
      requires Valid() && forall k :: 0 <= k < |events| ==> events[k].dev < |netDeviceList|
      modifies this`sent, this`Repr, Repr
      ensures Valid() && fresh(Repr - old(Repr)) && netDeviceList == old(netDeviceList)
      ensures ok <==> Survives(old(View()), events)
      ensures ok ==> View() == Inputs(old(View()), events) && sent == old(sent) + Log(old(View()), events)
    {
      hide Forwarding.IpInput, Survives, Inputs, Log;
      ghost var start := View();
      EmptyRun(start);
      assert events[..0] == [];
      for k := 0 to |events|
        invariant Valid() && fresh(Repr - old(Repr)) && netDeviceList == old(netDeviceList)
        invariant |View().devices| == |netDeviceList|
        invariant Survives(start, events[..k]) && View() == Inputs(start, events[..k])
        invariant sent == old(sent) + Log(start, events[..k])
      {
        ok := ReceivePacket(events[k]);
        assert events[..k + 1] == events[..k] + [events[k]];
        OneInput(start, events[..k], events[k]);
        if !ok {
          RunSplit(start, events[..k + 1], events[k + 1..]);
          assert events == events[..k + 1] + events[k + 1..];
          return;
        }
      }
      assert events[..|events|] == events;
      ok := true;
    }
  }

  /** An incoming translation leaves the tables as they are. */
  lemma IncomingKeepsTables(s: State, i: nat, c: Nat.Call)
    requires Forwarding.Valid(s) && i < |s.devices| && s.devices[i].natdev.Some? && c.dir.Incoming?
    ensures var conf := s.devices[i].natdev.value;
      WithTables(s, i, Nat.NatExec(conf.outside, conf.tables, c).tables) == s
  {
  }
}
