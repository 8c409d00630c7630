/** The tables of nat.go as they are in memory: one array of nullable entries per protocol,
    scanned linearly, filled from the front, and refining module Nat's sequences. */
module NatTable {
  import opened Bytes
  import opened Checksum
  import opened Headers
  import opened IpHeaders
  import opened Nat

  /** nat.go: natEntry. */
  class NatEntry {
    var globalIpAddr: u32
    var localIpAddr: u32
    var globalPort: u16
    var localPort: u16

    constructor (globalPort: u16)
      ensures this.globalPort == globalPort
      ensures globalIpAddr == 0 && localIpAddr == 0 && localPort == 0
    {
      this.globalPort := globalPort;
      globalIpAddr, localIpAddr, localPort := 0, 0, 0;
    }

    ghost predicate Holds(outside: u32, e: Endpoint, port: u16)
      reads this
    {
      globalIpAddr == outside && globalPort == port && Endpoint(localIpAddr, localPort) == e
    }
  }

  /** nat.go: natEntryList. The ghost field tables holds the endpoints that own the slots,
      outside the address of the device the list belongs to. */
  class NatEntryList {
    const tcp: array<NatEntry?>
    const udp: array<NatEntry?>
    const icmp: array<NatEntry?>
    ghost const outside: u32
    ghost var tables: Tables
    ghost var Repr: set<object>

    function Table(proto: Protocol): array<NatEntry?> {
      match proto
      case Tcp => tcp
      case Udp => udp
      case Icmp => icmp
    }

    /** One table is a dense prefix of occupied slots: slot i holds the i-th endpoint, the
        outside address and the i-th global port; every later slot is free. */
    ghost predicate Dense(proto: Protocol)
      reads this, Repr
    {
      var a, l := Table(proto), tables.Get(proto);
      && a in Repr && |l| <= a.Length == Capacity(proto)
      && (forall i :: 0 <= i < |l| ==>
            a[i] != null && a[i] in Repr && a[i].Holds(outside, l[i], GlobalPort(proto, i)))
      && (forall i :: |l| <= i < a.Length ==> a[i] == null)
    }

    ghost predicate Valid()
      reads this, Repr
      ensures Valid() ==> this in Repr
    {
      && this in Repr
      && tcp != udp && udp != icmp && tcp != icmp
      && (forall proto :: Table(proto).Length == Capacity(proto))
      && Nat.Valid(tables)
      && forall proto :: Dense(proto)
    }

    /** The tables configureIPNat builds (nat.go:54-61). */
    constructor (ghost outside: u32)
      ensures Valid() && fresh(Repr) && this.outside == outside
      ensures tables == Tables([], [], [])
    {
      tcp := new NatEntry?[NAT_GLOBAL_PORT_SIZE](_ => null);
      udp := new NatEntry?[NAT_GLOBAL_PORT_SIZE](_ => null);
      icmp := new NatEntry?[NAT_ICMP_ID_SIZE](_ => null);
      this.outside := outside;
      tables := Tables([], [], []);
      new;
      Repr := {this, tcp, udp, icmp};
    }

    /** nat.go: createNatEntry puts a fresh entry with the slot's global port into the first
        free slot, which is right behind the occupied ones; null when no slot is free. */
    method CreateNatEntry(proto: Protocol) returns (entry: NatEntry?)
      requires Valid()
      modifies Table(proto)
      ensures entry == null <==> |tables.Get(proto)| == Capacity(proto)
      ensures entry == null ==> unchanged(Table(proto))
      ensures entry != null ==> var n := |tables.Get(proto)|;
        && fresh(entry) && entry.globalPort == GlobalPort(proto, n)
        && Table(proto)[..] == old(Table(proto)[..])[n := entry]
    {
      var a := Table(proto);
      assert Dense(proto);
      for i := 0 to a.Length
        invariant a[..] == old(a[..])
        invariant i <= |tables.Get(proto)|
      {
        if a[i] == null {
          a[i] := new NatEntry(GlobalPort(proto, i));
          return a[i];
        }
      }
      return null;
    }

    /** nat.go: getNatEntryByGlobal. The scan equals a direct index: the slot at the port's
        distance from the start of the range, if it is occupied and the address is outside. */
    method GetNatEntryByGlobal(proto: Protocol, ipaddr: u32, port: u16) returns (entry: NatEntry?)
      requires Valid()
      ensures var i := SlotOfGlobal(outside, tables.Get(proto), proto, ipaddr, port);
        entry == if i < |tables.Get(proto)| then Table(proto)[i] else null
    {
      var a := Table(proto);
      assert Dense(proto);
      for i := 0 to a.Length
        invariant forall j :: 0 <= j < i && j < |tables.Get(proto)| ==>
          !(ipaddr == outside && port == GlobalPort(proto, j))
      {
        var v := a[i];
        if v != null && ipaddr == v.globalIpAddr && port == v.globalPort {
          return v;
        }
      }
      return null;
    }

    /** nat.go: getNatEntryByLocal finds the slot the endpoint owns. */
    method GetNatEntryByLocal(proto: Protocol, ipaddr: u32, port: u16) returns (entry: NatEntry?)
      requires Valid()
      ensures var i := IndexOf(tables.Get(proto), Endpoint(ipaddr, port));
        entry == if i < |tables.Get(proto)| then Table(proto)[i] else null
    {
      var a := Table(proto);
      assert Dense(proto);
      for i := 0 to a.Length
        invariant forall j :: 0 <= j < i && j < |tables.Get(proto)| ==>
          tables.Get(proto)[j] != Endpoint(ipaddr, port)
      {
        var v := a[i];
        if v != null && ipaddr == v.localIpAddr && port == v.localPort {
          return v;
        }
      }
      return null;
    }

    /** The outgoing lookup with its allocation (nat.go:204-213): afterwards the endpoint owns
        the slot the specification gives it, or the table is full and nothing has changed. */
    method FindOrCreate(outsideIpAddr: u32, proto: Protocol, src: u32, port: u16) returns (entry: NatEntry?)
      requires Valid() && outsideIpAddr == outside
      modifies Repr
      ensures Valid() && fresh(Repr - old(Repr))
      ensures var l, e := old(tables.Get(proto)), Endpoint(src, port);
        var i := IndexOf(l, e);
        if i == Capacity(proto) then entry == null && tables == old(tables)
        else
          && tables == (if i == |l| then old(tables).Set(proto, l + [e]) else old(tables))
          && entry != null && entry.Holds(outside, e, GlobalPort(proto, i))
    {
      hide IndexOf;
      entry := GetNatEntryByLocal(proto, src, port);
      assert Dense(proto);
      if entry == null {
        entry := CreateNatEntry(proto);
        if entry == null {
          return;
        }
        forall q | q != proto
          ensures Dense(q)
        {
          assert old(Dense(q)) && Table(q) != Table(proto);
        }
        Occupy(outsideIpAddr, proto, entry, src, port);
      }
    }

    /** Slot n of a table holds entry and every other slot is as the table says. */
    ghost predicate DenseBut(proto: Protocol, n: nat, entry: NatEntry)
      reads this, Repr
    {
      var a, l := Table(proto), tables.Get(proto);
      && a in Repr && n == |l| < a.Length == Capacity(proto) && a[n] == entry
      && (forall i :: 0 <= i < |l| ==>
            a[i] != null && a[i] in Repr && a[i].Holds(outside, l[i], GlobalPort(proto, i)))
      && (forall i :: |l| < i < a.Length ==> a[i] == null)
    }

    /** Fills the fields of a created entry (nat.go:210-212). */
    method Occupy(outsideIpAddr: u32, proto: Protocol, entry: NatEntry, src: u32, port: u16)
      requires this in Repr && entry !in Repr && outsideIpAddr == outside
      requires tcp != udp && udp != icmp && tcp != icmp
      requires forall q :: Table(q).Length == Capacity(q)
      requires forall q :: q != proto ==> Dense(q)
      requires DenseBut(proto, |tables.Get(proto)|, entry)
      requires Nat.Valid(tables) && Endpoint(src, port) !in tables.Get(proto)
      requires entry.globalPort == GlobalPort(proto, |tables.Get(proto)|)
      modifies this, entry
      ensures Valid() && Repr == old(Repr) + {entry}
      ensures tables == old(tables).Set(proto, old(tables.Get(proto)) + [Endpoint(src, port)])
      ensures entry.Holds(outside, Endpoint(src, port), GlobalPort(proto, |old(tables.Get(proto))|))
    {
      ValidAfterAdmit(tables, proto, Endpoint(src, port));
      entry.globalIpAddr := outsideIpAddr;
      entry.localIpAddr := src;
      entry.localPort := port;
      tables := tables.Set(proto, tables.Get(proto) + [Endpoint(src, port)]);
      Repr := Repr + {entry};
      forall q
        ensures Dense(q)
      {
        if q != proto {
          assert old(Dense(q));
        }
      }
    }
  }

  lemma ValidAfterAdmit(t: Tables, proto: Protocol, e: Endpoint)
    requires Nat.Valid(t) && e !in t.Get(proto) && |t.Get(proto)| < Capacity(proto)
    ensures Nat.Valid(t.Set(proto, t.Get(proto) + [e]))
  {
  }

  /** nat.go: natDevice. */
  datatype NatDevice = NatDevice(outsideIpAddr: u32, natEntry: NatEntryList)

  // ---------- natExec ----------

  /** nat.go:233-254. */
  method SerialiseUdp(h: UdpHeader, payload: seq<byte>, src: u32, dst: u32) returns (output: Output)
    ensures output == UdpOutput(h, payload, src, dst)
  {
    hide WordSum, UdpBytes;
    if |payload| < 8 {
      return Error(UdpTooShort);
    }
    var l4Payload := payload[8..];
    var udph := h;
    if udph.checkSum != 0 {
      udph := udph.(checkSum := 0);
      var header := UdpToPacket(udph);
      var packet := header + l4Payload;
      var sum := PseudoHeaderSum(src, dst, IP_PROTOCOL_NUM_UDP, |packet|);
      var words := SumByteArr(packet);
      if words.None? {
        return Panic;
      }
      var cksum := FoldChecksum(sum + words.value);
      if cksum == 0 {
        cksum := 0xffff;
      }
      udph := udph.(checkSum := cksum);
    }
    var header := UdpToPacket(udph);
    return Packet(header + l4Payload);
  }

  /** nat.go:256-262. */
  method SerialiseTcp(h: TcpHeader, src: u32, dst: u32) returns (output: Output)
    ensures output == TcpOutput(h, src, dst)
  {
    hide WordSum, TcpBytes;
    var tcph := h.(checkSum := 0);
    var packet := TcpToPacket(tcph);
    var sum := PseudoHeaderSum(src, dst, IP_PROTOCOL_NUM_TCP, |packet|);
    var words := SumByteArr(packet);
    if words.None? {
      return Panic;
    }
    var cksum := FoldChecksum(sum + words.value);
    tcph := tcph.(checkSum := cksum);
    packet := TcpToPacket(tcph);
    return Packet(packet);
  }

  /** Overwrites one word of the buffer. */
  method PutWord(buf: array<byte>, at: nat, w: u16)
    requires at + 2 <= buf.Length
    modifies buf
    ensures buf[..] == Splice(old(buf[..]), at, w)
  {
    var b := Uint16ToByte(w);
    buf[at], buf[at + 1] := b[0], b[1];
  }

  lemma SpliceSlice(s: seq<byte>, lo: nat, hi: nat, at: nat, w: u16)
    requires lo <= hi <= |s| && at + 2 <= hi - lo
    ensures Splice(s, lo + at, w)[lo..hi] == Splice(s[lo..hi], at, w)
    ensures Splice(s, lo + at, w)[..lo] == s[..lo] && Splice(s, lo + at, w)[hi..] == s[hi..]
  {
  }

  /** nat.go:264-270: patches identifier and checksum in the received bytes themselves. */
  method SerialiseIcmp(buf: array<byte>, lo: nat, hi: nat, id: u16) returns (output: Output)
    requires lo + 16 <= hi <= buf.Length
    modifies buf
    ensures output == IcmpOutput(old(buf[lo..hi]), id)
    ensures buf[lo..hi] == IcmpBuffer(old(buf[lo..hi]), id)
    ensures buf[..lo] == old(buf[..lo]) && buf[hi..] == old(buf[hi..])
  {
    hide WordSum, Splice;
    ghost var before := buf[..];
    PutWord(buf, lo + 4, id);
    SpliceSlice(before, lo, hi, 4, id);
    ghost var marked := buf[..];
    PutWord(buf, lo + 2, 0);
    SpliceSlice(marked, lo, hi, 2, 0);
    ghost var zeroed := buf[..];
    var words := SumByteArr(buf[lo..hi]);
    if words.None? {
      return Panic;
    }
    var cksum := FoldChecksum(words.value);
    PutWord(buf, lo + 2, cksum);
    SpliceSlice(zeroed, lo, hi, 2, cksum);
    return Packet(buf[lo..hi]);
  }

  /** The specification by cases: refused, not translated, translated. */
  lemma ExecCases(outside: u32, t: Tables, c: Call)
    requires Nat.Valid(t)
    ensures var r, p, l := Nat.NatExec(outside, t, c), ParsePorts(c.proto, c.payload), t.Get(c.proto);
      if p.Refused? then r == Effect(t, c.src, c.dst, p.output) && !Translates(outside, t, c)
      else if c.dir.Incoming? then
        var i := SlotOfGlobal(outside, l, c.proto, c.dst, p.destPort);
        if i == |l| then r == Effect(t, c.src, c.dst, Error(NoEntry)) && !Translates(outside, t, c)
        else
          && Translates(outside, t, c) && RewrittenPort(outside, t, c) == l[i].port
          && r == Effect(t, c.src, l[i].ip, Rewrite(c.proto, Incoming, c.payload, l[i].port, c.src, l[i].ip))
      else
        var e := Endpoint(c.src, p.srcPort);
        var i := IndexOf(l, e);
        if i == Capacity(c.proto) then r == Effect(t, c.src, c.dst, Error(TableFull)) && !Translates(outside, t, c)
        else
          && Translates(outside, t, c) && RewrittenPort(outside, t, c) == GlobalPort(c.proto, i)
          && r == Effect(if i == |l| then t.Set(c.proto, l + [e]) else t, outside, c.dst,
                         Rewrite(c.proto, Outgoing, c.payload, GlobalPort(c.proto, i), outside, c.dst))
  {
    hide Rewrite;
    var p := ParsePorts(c.proto, c.payload);
    if p.Ports? && c.dir.Outgoing? {
      var l, e := t.Get(c.proto), Endpoint(c.src, p.srcPort);
      assert e in l <==> IndexOf(l, e) < |l|;
    }
  }

  /** nat.go:225-272, after the port has been rewritten. */
  method Serialise(proto: Protocol, dir: Direction, buf: array<byte>, lo: nat, hi: nat,
                   port: u16, src: u32, dst: u32) returns (output: Output)
    requires lo <= hi <= buf.Length && ParsePorts(proto, buf[lo..hi]).Ports?
    modifies buf
    ensures output == Rewrite(proto, dir, old(buf[lo..hi]), port, src, dst)
    ensures buf[lo..hi] == if proto.Icmp? then IcmpBuffer(old(buf[lo..hi]), port) else old(buf[lo..hi])
    ensures buf[..lo] == old(buf[..lo]) && buf[hi..] == old(buf[hi..])
  {
    hide UdpOutput, TcpOutput, IcmpOutput, ParseUdp, ParseTcp;
    match proto
    case Udp =>
      var udph := ParseUdp(buf[lo..hi]);
      if dir.Incoming? {
        udph := udph.(destPort := port);
      } else {
        udph := udph.(srcPort := port);
      }
      output := SerialiseUdp(udph, buf[lo..hi], src, dst);
    case Tcp =>
      var tcph := ParseTcp(buf[lo..hi]);
      if dir.Incoming? {
        tcph := tcph.(destPort := port);
      } else {
        tcph := tcph.(srcPort := port);
      }
      output := SerialiseTcp(tcph, src, dst);
    case Icmp =>
      output := SerialiseIcmp(buf, lo, hi, port);
  }

  /** nat.go: natExec on the segment buf[lo..hi]. Tables, header addresses and result are
      those of the specification; of the received bytes, only an ICMP segment that is translated
      is written to, in place. */
  method NatExec(ipHeader: IpHeader, buf: array<byte>, lo: nat, hi: nat,
                 natdevice: NatDevice, proto: Protocol, direction: Direction) returns (output: Output)
    requires lo <= hi <= buf.Length
    requires natdevice.natEntry.Valid() && natdevice.outsideIpAddr == natdevice.natEntry.outside
    requires ipHeader !in natdevice.natEntry.Repr && buf !in natdevice.natEntry.Repr
    modifies ipHeader, buf, natdevice.natEntry.Repr
    ensures natdevice.natEntry.Valid()
    ensures fresh(natdevice.natEntry.Repr - old(natdevice.natEntry.Repr))
    ensures var c := Call(old(ipHeader.srcAddr), old(ipHeader.destAddr), old(buf[lo..hi]), proto, direction);
      var r := Nat.NatExec(natdevice.outsideIpAddr, old(natdevice.natEntry.tables), c);
      && output == r.output && natdevice.natEntry.tables == r.tables
      && ipHeader.Value() == old(ipHeader.Value()).(srcAddr := r.src, destAddr := r.dst)
    ensures var c := Call(old(ipHeader.srcAddr), old(ipHeader.destAddr), old(buf[lo..hi]), proto, direction);
      buf[lo..hi] == BufferAfter(natdevice.outsideIpAddr, old(natdevice.natEntry.tables), c)
    ensures buf[..lo] == old(buf[..lo]) && buf[hi..] == old(buf[hi..])
  {
    hide ParsePorts, Rewrite, IndexOf, IcmpBuffer, Nat.NatExec;
    var natEntry := natdevice.natEntry;
    ghost var call := Call(ipHeader.srcAddr, ipHeader.destAddr, buf[lo..hi], proto, direction);
    ghost var before := natEntry.tables;
    ExecCases(natdevice.outsideIpAddr, before, call);
    var parse := ParsePorts(proto, buf[lo..hi]);
    if parse.Refused? {
      return parse.output;
    }
    var port: u16;
    if direction == Incoming {
      var entry := natEntry.GetNatEntryByGlobal(proto, ipHeader.destAddr, parse.destPort);
      assert natEntry.Dense(proto);
      if entry == null {
        return Error(NoEntry);
      }
      ipHeader.destAddr := entry.localIpAddr;
      port := entry.localPort;
    } else {
      var entry := natEntry.FindOrCreate(natdevice.outsideIpAddr, proto, ipHeader.srcAddr, parse.srcPort);
      if entry == null {
        return Error(TableFull);
      }
      ipHeader.srcAddr := entry.globalIpAddr;
      port := entry.globalPort;
    }
    output := Serialise(proto, direction, buf, lo, hi, port, ipHeader.srcAddr, ipHeader.destAddr);
  }
}
