/** Network address translation (nat.go): the translation of one packet as a function of the
    table, and what it does to the packet. A table is the sequence of local endpoints that
    own its slots; module NatTable refines it to the arrays of entries. */
module Nat {
  import opened Bytes
  import opened Checksum
  import opened Headers

  datatype Protocol = Tcp | Udp | Icmp
  datatype Direction = Outgoing | Incoming

  datatype Endpoint = Endpoint(ip: u32, port: u16)

  /** The local endpoints of one table; the endpoint at position i owns slot i. */
  type Locals = seq<Endpoint>

  datatype Tables = Tables(tcp: Locals, udp: Locals, icmp: Locals) {
    function Get(proto: Protocol): Locals {
      match proto
      case Tcp => tcp
      case Udp => udp
      case Icmp => icmp
    }

    function Set(proto: Protocol, l: Locals): (t: Tables)
      ensures t.Get(proto) == l && forall q :: q != proto ==> t.Get(q) == Get(q)
    {
      match proto
      case Tcp => this.(tcp := l)
      case Udp => this.(udp := l)
      case Icmp => this.(icmp := l)
    }
  }

  const NAT_GLOBAL_PORT_MIN := 20000
  const NAT_GLOBAL_PORT_MAX := 59999
  const NAT_GLOBAL_PORT_SIZE := NAT_GLOBAL_PORT_MAX - NAT_GLOBAL_PORT_MIN + 1
  const NAT_ICMP_ID_SIZE := 0xffff

  const IP_PROTOCOL_NUM_TCP: byte := 0x06
  const IP_PROTOCOL_NUM_UDP: byte := 0x11

  function Capacity(proto: Protocol): nat {
    if proto.Icmp? then NAT_ICMP_ID_SIZE else NAT_GLOBAL_PORT_SIZE
  }

  /** The global port (ICMP: identifier) of slot i. */
  function GlobalPort(proto: Protocol, i: nat): u16
    requires i < Capacity(proto)
  {
    if proto.Icmp? then i else NAT_GLOBAL_PORT_MIN + i
  }

  /** Position of the first occurrence, or the length when there is none. */
  function IndexOf(l: Locals, e: Endpoint): (i: nat)
    ensures i <= |l| && (i < |l| ==> l[i] == e) && forall j :: 0 <= j < i ==> l[j] != e
  {
    if l == [] then 0
    else if l[0] == e then 0
    else 1 + IndexOf(l[1..], e)
  }

  /** The slot whose entry has this global endpoint. */
  function SlotOfGlobal(outside: u32, l: Locals, proto: Protocol, ip: u32, port: u16): (i: nat)
    ensures i <= |l|
    ensures |l| <= Capacity(proto) && i < |l| ==> ip == outside && port == GlobalPort(proto, i)
  {
    var base := if proto.Icmp? then 0 else NAT_GLOBAL_PORT_MIN;
    if ip == outside && base <= port < base + |l| then port - base else |l|
  }

  // ---------- One packet ----------

  datatype NatError = IcmpTypeNotAllowed | NoEntry | TableFull | UdpTooShort

  /** What a call returns: a segment, an error, or a Go panic. */
  datatype Output = Packet(bytes: seq<byte>) | Error(error: NatError) | Panic

  /** What the per-protocol parse yields (nat.go:161-179). */
  datatype Parse = Ports(srcPort: u16, destPort: u16) | Refused(output: Output)

  function ParsePorts(proto: Protocol, payload: seq<byte>): (r: Parse)
    ensures r.Refused? ==> !r.output.Packet?
  {
    match proto
    case Udp => var h := ParseUdp(payload); Ports(h.srcPort, h.destPort)
    case Tcp => var h := ParseTcp(payload); Ports(h.srcPort, h.destPort)
    case Icmp =>
      match ParseIcmp(payload)
      case None => Refused(Panic)
      case Some(m) =>
        if m.icmpType != ICMP_TYPE_ECHO_REPLY && m.icmpType != ICMP_TYPE_ECHO_REQUEST
        then Refused(Error(IcmpTypeNotAllowed))
        else Ports(m.identity, m.identity)
  }

  /** nat.go:233-254: the rewritten UDP header in front of the old payload. */
  function UdpOutput(h: UdpHeader, payload: seq<byte>, src: u32, dst: u32): Output {
    if |payload| < 8 then Error(UdpTooShort)
    else if h.checkSum == 0 then Packet(UdpBytes(h) + payload[8..])
    else
      var zeroed := UdpBytes(h.(checkSum := 0)) + payload[8..];
      if |zeroed| % 2 == 1 then Panic
      else
        var cksum := Fold(PseudoHeaderSum(src, dst, IP_PROTOCOL_NUM_UDP, |zeroed|) + WordSum(zeroed));
        Packet(UdpBytes(h.(checkSum := if cksum == 0 then 0xffff else cksum)) + payload[8..])
  }

  /** nat.go:256-262. */
  function TcpOutput(h: TcpHeader, src: u32, dst: u32): Output {
    var zeroed := TcpBytes(h.(checkSum := 0));
    if |zeroed| % 2 == 1 then Panic
    else Packet(TcpBytes(h.(checkSum :=
      Fold(PseudoHeaderSum(src, dst, IP_PROTOCOL_NUM_TCP, |zeroed|) + WordSum(zeroed)))))
  }

  /** p with the word w written at offset at. */
  function Splice(p: seq<byte>, at: nat, w: u16): (r: seq<byte>)
    requires at + 2 <= |p|
    ensures |r| == |p|
  {
    p[..at] + Uint16ToByte(w) + p[at + 2..]
  }

  /** nat.go:264-270: identifier and checksum patched in the received bytes. */
  function IcmpOutput(payload: seq<byte>, id: u16): Output
    requires |payload| >= 16
  {
    var zeroed := Splice(Splice(payload, 4, id), 2, 0);
    if |zeroed| % 2 == 1 then Panic
    else Packet(Splice(zeroed, 2, Fold(WordSum(zeroed))))
  }

  /** The segment after one port (or identifier) and one address have been rewritten. */
  function Rewrite(proto: Protocol, dir: Direction, payload: seq<byte>, port: u16, src: u32, dst: u32): Output
    requires ParsePorts(proto, payload).Ports?
  {
    match proto
    case Udp =>
      var h := ParseUdp(payload);
      UdpOutput(if dir.Incoming? then h.(destPort := port) else h.(srcPort := port), payload, src, dst)
    case Tcp =>
      var h := ParseTcp(payload);
      TcpOutput(if dir.Incoming? then h.(destPort := port) else h.(srcPort := port), src, dst)
    case Icmp => IcmpOutput(payload, port)
  }

  datatype Call = Call(src: u32, dst: u32, payload: seq<byte>, proto: Protocol, dir: Direction)

  /** New tables, the addresses left in the IP header, and the result. */
  datatype Effect = Effect(tables: Tables, src: u32, dst: u32, output: Output)

  /** nat.go: natExec on a NAT device with this outside address. */
  function NatExec(outside: u32, t: Tables, c: Call): (r: Effect)
    requires Valid(t)
    ensures Valid(r.tables)
  {
    match ParsePorts(c.proto, c.payload)
    case Refused(output) => Effect(t, c.src, c.dst, output)
    case Ports(srcPort, destPort) =>
      var l := t.Get(c.proto);
      if c.dir.Incoming? then
        var i := SlotOfGlobal(outside, l, c.proto, c.dst, destPort);
        if i == |l| then Effect(t, c.src, c.dst, Error(NoEntry))
        else Effect(t, c.src, l[i].ip, Rewrite(c.proto, Incoming, c.payload, l[i].port, c.src, l[i].ip))
      else
        var e := Endpoint(c.src, srcPort);
        var i := IndexOf(l, e);
        if i == Capacity(c.proto) then Effect(t, c.src, c.dst, Error(TableFull))
        else
          var port := GlobalPort(c.proto, i);
          Effect(if i == |l| then t.Set(c.proto, l + [e]) else t, outside, c.dst,
                 Rewrite(c.proto, Outgoing, c.payload, port, outside, c.dst))
  }

  /** No table is longer than its array, and no endpoint owns two slots of one table. */
  ghost predicate Valid(t: Tables) {
    forall proto :: |t.Get(proto)| <= Capacity(proto) && Distinct(t.Get(proto))
  }

  ghost predicate Distinct(l: Locals) {
    forall i, j :: 0 <= i < j < |l| ==> l[i] != l[j]
  }

  lemma IndexOfDistinct(l: Locals, i: nat)
    requires Distinct(l) && i < |l|
    ensures IndexOf(l, l[i]) == i
  {
    assert IndexOf(l, l[i]) <= i;
  }

  // ---------- The translation a call makes ----------

  /** The call's ports can be read, and its lookup succeeds or can allocate. */
  predicate Translates(outside: u32, t: Tables, c: Call) {
    match ParsePorts(c.proto, c.payload)
    case Refused(_) => false
    case Ports(srcPort, destPort) =>
      var l := t.Get(c.proto);
      if c.dir.Incoming? then SlotOfGlobal(outside, l, c.proto, c.dst, destPort) < |l|
      else Endpoint(c.src, srcPort) in l || |l| < Capacity(c.proto)
  }

  /** The port (or identifier) that the call writes. */
  function RewrittenPort(outside: u32, t: Tables, c: Call): u16
    requires Valid(t) && Translates(outside, t, c)
  {
    var l, ports := t.Get(c.proto), ParsePorts(c.proto, c.payload);
    if c.dir.Incoming? then l[SlotOfGlobal(outside, l, c.proto, c.dst, ports.destPort)].port
    else
      var i := IndexOf(l, Endpoint(c.src, ports.srcPort));
      assert i == |l| ==> Endpoint(c.src, ports.srcPort) !in l;
      GlobalPort(c.proto, i)
  }

  /** A call that translates rewrites the segment with that port between the addresses it
      leaves in the IP header; one direction's address is always kept. */
  lemma ExecRewrites(outside: u32, t: Tables, c: Call)
    requires Valid(t)
    ensures var r := NatExec(outside, t, c);
      && (Translates(outside, t, c) ==>
            && ParsePorts(c.proto, c.payload).Ports?
            && r.output == Rewrite(c.proto, c.dir, c.payload, RewrittenPort(outside, t, c), r.src, r.dst)
            && (if c.dir.Incoming? then r.src == c.src else r.src == outside && r.dst == c.dst))
      && (!Translates(outside, t, c) ==> !r.output.Packet? && r.tables == t && r.src == c.src && r.dst == c.dst)
  {
    hide Rewrite;
    var ports := ParsePorts(c.proto, c.payload);
    if ports.Ports? && c.dir.Outgoing? {
      var l, e := t.Get(c.proto), Endpoint(c.src, ports.srcPort);
      assert e in l <==> IndexOf(l, e) < |l|;
    }
  }

  /** The received segment's bytes afterwards: natExec writes only into an ICMP segment that it
      translates, and there it has done so before the checksum loop can panic. */
  function BufferAfter(outside: u32, t: Tables, c: Call): (b: seq<byte>)
    requires Valid(t)
    ensures |b| == |c.payload|
  {
    if c.proto.Icmp? && Translates(outside, t, c)
    then IcmpBuffer(c.payload, RewrittenPort(outside, t, c)) else c.payload
  }

  function IcmpBuffer(payload: seq<byte>, id: u16): (b: seq<byte>)
    requires |payload| >= 16
    ensures |b| == |payload| && (IcmpOutput(payload, id).Packet? ==> b == IcmpOutput(payload, id).bytes)
  {
    var zeroed := Splice(Splice(payload, 4, id), 2, 0);
    if |zeroed| % 2 == 1 then zeroed else Splice(zeroed, 2, Fold(WordSum(zeroed)))
  }

  /** Every byte of the received segment afterwards: those of a translated ICMP message are the
      ones returned, or, when the checksum loop panics on them, the received ones with the new
      identifier and a zero checksum; all other segments are untouched. */
  lemma BufferExactly(outside: u32, t: Tables, c: Call)
    requires Valid(t)
    ensures var b, output := BufferAfter(outside, t, c), NatExec(outside, t, c).output;
      if c.proto.Icmp? && output.Packet? then b == output.bytes
      else if c.proto.Icmp? && output.Panic? && |c.payload| >= 16 then
        && Translates(outside, t, c) && b[2..4] == [0, 0] && PortField(Icmp, c.dir, b) == RewrittenPort(outside, t, c)
        && b[..2] == c.payload[..2] && b[6..] == c.payload[6..]
      else b == c.payload
  {
    ExecRewrites(outside, t, c);
    if Translates(outside, t, c) && c.proto.Icmp? {
      var port := RewrittenPort(outside, t, c);
      var p := Splice(c.payload, 4, port);
      SpliceFields(c.payload, 4, port, 0, 2);
      SpliceFields(c.payload, 4, port, 6, |p|);
      SpliceFields(p, 2, 0, 0, 2);
      SpliceFields(p, 2, 0, 4, 6);
      SpliceFields(p, 2, 0, 6, |p|);
    }
  }

  // ---------- What rewriting does to the bytes ----------

  /** A segment that its parser accepts. */
  predicate WellFormed(proto: Protocol, payload: seq<byte>) {
    match proto
    case Udp => |payload| >= 8
    case Tcp => WellFormedTcp(payload)
    case Icmp => ParsePorts(Icmp, payload).Ports?
  }

  function PortOffset(proto: Protocol, dir: Direction): nat {
    if proto.Icmp? then 4 else if dir.Outgoing? then 0 else 2
  }

  function ChecksumOffset(proto: Protocol): nat {
    match proto
    case Udp => 6
    case Tcp => 16
    case Icmp => 2
  }

  function ChecksumField(proto: Protocol, b: seq<byte>): u16
    requires |b| >= 2 + ChecksumOffset(proto)
  {
    ByteToUint16(b[ChecksumOffset(proto)..ChecksumOffset(proto) + 2])
  }

  /** The sum over a segment of the length that the IP header delimits, pseudo header with that
      length included; for ICMP the segment alone. */
  function ReceiverSum(proto: Protocol, src: u32, dst: u32, b: seq<byte>): nat {
    match proto
    case Udp => PseudoHeaderSum(src, dst, 17, |b|) + WordSum(b)
    case Tcp => PseudoHeaderSum(src, dst, 6, |b|) + WordSum(b)
    case Icmp => WordSum(b)
  }

  /** The input bytes with only port and checksum field replaced. */
  function Patched(proto: Protocol, dir: Direction, payload: seq<byte>, port: u16, cksum: u16): (r: seq<byte>)
    requires |payload| >= 2 + ChecksumOffset(proto) && |payload| >= 2 + PortOffset(proto, dir)
    ensures |r| == |payload|
  {
    Splice(Splice(payload, PortOffset(proto, dir), port), ChecksumOffset(proto), cksum)
  }

  lemma UdpPatched(dir: Direction, payload: seq<byte>, port: u16, cksum: u16)
    requires |payload| >= 8
    ensures var h := ParseUdp(payload).(checkSum := cksum);
      UdpBytes(if dir.Incoming? then h.(destPort := port) else h.(srcPort := port)) + payload[8..]
      == Patched(Udp, dir, payload, port, cksum)
  {
    UdpRoundTrip(payload);
    var b := UdpBytes(ParseUdp(payload));
    assert forall k :: 0 <= k < 8 ==> b[k] == payload[k];
  }

  lemma TcpFixedPatched(h: TcpHeader, w: u16)
    ensures TcpFixed(h.(srcPort := w)) == Splice(TcpFixed(h), 0, w)
    ensures TcpFixed(h.(destPort := w)) == Splice(TcpFixed(h), 2, w)
    ensures TcpFixed(h.(checkSum := w)) == Splice(TcpFixed(h), 16, w)
  {
  }

  lemma TcpTail(h: TcpHeader, payload: seq<byte>)
    requires WellFormedTcp(payload)
    requires h.options == ParseTcp(payload).options && h.tcpdata == ParseTcp(payload).tcpdata
    ensures TcpBytes(h) == TcpFixed(h) + payload[20..]
  {
    hide TcpFixed;
    assert h.options + h.tcpdata == payload[20..];
    assert TcpBytes(h) == TcpFixed(h) + (h.options + h.tcpdata);
  }

  lemma TcpPatched(dir: Direction, payload: seq<byte>, port: u16, cksum: u16)
    requires WellFormedTcp(payload)
    ensures var h := ParseTcp(payload);
      TcpBytes((if dir.Incoming? then h.(destPort := port) else h.(srcPort := port)).(checkSum := cksum))
      == Patched(Tcp, dir, payload, port, cksum)
  {
    hide TcpFixed, TcpBytes, Splice, ParseTcp;
    var h := ParseTcp(payload);
    var h' := if dir.Incoming? then h.(destPort := port) else h.(srcPort := port);
    var front, tail := payload[..20], payload[20..];
    TcpTail(h'.(checkSum := cksum), payload);
    TcpFixedRoundTrip(payload);
    TcpFixedPatched(h, port);
    TcpFixedPatched(h', cksum);
    assert payload == front + tail;
    SpliceAppend(front, tail, PortOffset(Tcp, dir), port);
    SpliceAppend(Splice(front, PortOffset(Tcp, dir), port), tail, 16, cksum);
  }

  lemma SpliceAppend(a: seq<byte>, b: seq<byte>, at: nat, w: u16)
    requires at + 2 <= |a|
    ensures Splice(a + b, at, w) == Splice(a, at, w) + b
  {
  }

  /** Reading back the written word, and any bytes beside it. */
  lemma SpliceFields(p: seq<byte>, at: nat, w: u16, lo: nat, hi: nat)
    requires at + 2 <= |p| && lo <= hi <= |p| && (hi <= at || at + 2 <= lo)
    ensures Splice(p, at, w)[at..at + 2] == Uint16ToByte(w)
    ensures Splice(p, at, w)[lo..hi] == p[lo..hi]
  {
  }

  /** Exactly when a translated well-formed segment comes out, and otherwise what happens:
      only the checksum loop on an odd length can stop it. */
  lemma RewriteOutcome(proto: Protocol, dir: Direction, payload: seq<byte>, port: u16, src: u32, dst: u32)
    requires ParsePorts(proto, payload).Ports?
    ensures var o := Rewrite(proto, dir, payload, port, src, dst);
      && (o.Error? <==> proto.Udp? && |payload| < 8)
      && (o.Panic? <==> WellFormed(proto, payload) && |payload| % 2 == 1
                        && !(proto.Udp? && ChecksumField(Udp, payload) == 0))
  {
    if proto.Tcp? && WellFormedTcp(payload) {
      TcpPatched(dir, payload, port, 0);
    }
  }

  /** Framing: a well-formed segment comes out with the same bytes except the one rewritten
      port or identifier and the checksum field. */
  lemma RewriteFrames(proto: Protocol, dir: Direction, payload: seq<byte>, port: u16, src: u32, dst: u32)
    requires WellFormed(proto, payload) && ParsePorts(proto, payload).Ports?
    requires Rewrite(proto, dir, payload, port, src, dst).Packet?
    ensures var b := Rewrite(proto, dir, payload, port, src, dst).bytes;
      |b| == |payload| && b == Patched(proto, dir, payload, port, ChecksumField(proto, b))
  {
    hide Patched;
    match proto
    case Udp => UdpFrames(dir, payload, port, src, dst);
    case Tcp => TcpFrames(dir, payload, port, src, dst);
    case Icmp => IcmpFrames(payload, port);
  }

  lemma UdpFrames(dir: Direction, payload: seq<byte>, port: u16, src: u32, dst: u32)
    requires |payload| >= 8 && Rewrite(Udp, dir, payload, port, src, dst).Packet?
    ensures var b := Rewrite(Udp, dir, payload, port, src, dst).bytes;
      |b| == |payload| && b == Patched(Udp, dir, payload, port, ChecksumField(Udp, b))
  {
    hide UdpBytes, ParseUdp, Patched;
    var b := Rewrite(Udp, dir, payload, port, src, dst).bytes;
    var h := ParseUdp(payload);
    var h' := if dir.Incoming? then h.(destPort := port) else h.(srcPort := port);
    var w: u16 :| b == UdpBytes(h'.(checkSum := w)) + payload[8..];
    UdpPatched(dir, payload, port, w);
    PatchedChecksum(Udp, dir, payload, port, w);
  }

  lemma TcpFrames(dir: Direction, payload: seq<byte>, port: u16, src: u32, dst: u32)
    requires WellFormedTcp(payload) && Rewrite(Tcp, dir, payload, port, src, dst).Packet?
    ensures var b := Rewrite(Tcp, dir, payload, port, src, dst).bytes;
      |b| == |payload| && b == Patched(Tcp, dir, payload, port, ChecksumField(Tcp, b))
  {
    hide TcpBytes, ParseTcp, Patched;
    var b := Rewrite(Tcp, dir, payload, port, src, dst).bytes;
    var h := ParseTcp(payload);
    var h' := if dir.Incoming? then h.(destPort := port) else h.(srcPort := port);
    var w: u16 :| b == TcpBytes(h'.(checkSum := w));
    TcpPatched(dir, payload, port, w);
    PatchedChecksum(Tcp, dir, payload, port, w);
  }

  lemma IcmpFrames(payload: seq<byte>, port: u16)
    requires |payload| >= 16 && IcmpOutput(payload, port).Packet?
    ensures var b := IcmpOutput(payload, port).bytes;
      forall dir :: |b| == |payload| && b == Patched(Icmp, dir, payload, port, ChecksumField(Icmp, b))
  {
    hide WordSum;
    var p := Splice(payload, 4, port);
    var w := Fold(WordSum(Splice(p, 2, 0)));
    assert Splice(Splice(p, 2, 0), 2, w) == Splice(p, 2, w);
    PatchedChecksum(Icmp, Outgoing, payload, port, w);
  }

  lemma PatchedChecksum(proto: Protocol, dir: Direction, payload: seq<byte>, port: u16, w: u16)
    requires |payload| >= 2 + ChecksumOffset(proto) && |payload| >= 2 + PortOffset(proto, dir)
    ensures ChecksumField(proto, Patched(proto, dir, payload, port, w)) == w
  {
    SpliceFields(Splice(payload, PortOffset(proto, dir), port), ChecksumOffset(proto), w, 0, 0);
  }

  /** Every segment that comes out verifies over its whole length against the rewritten
      addresses, whatever came in; a UDP checksum is zero on output exactly when it was on
      input. What a receiver makes of a UDP length field that disagrees is UdpLengthField. */
  lemma RewriteVerifies(proto: Protocol, dir: Direction, payload: seq<byte>, port: u16, src: u32, dst: u32)
    requires ParsePorts(proto, payload).Ports?
    requires Rewrite(proto, dir, payload, port, src, dst).Packet?
    ensures var b := Rewrite(proto, dir, payload, port, src, dst).bytes;
      && |b| >= 2 + ChecksumOffset(proto)
      && (proto.Udp? ==> (ChecksumField(Udp, b) == 0 <==> ChecksumField(Udp, payload) == 0))
      && ((proto.Udp? && ChecksumField(Udp, b) == 0) || Verifies(ReceiverSum(proto, src, dst, b)))
  {
    match proto
    case Udp =>
      var h := ParseUdp(payload);
      UdpVerifies(if dir.Incoming? then h.(destPort := port) else h.(srcPort := port), payload, src, dst);
    case Tcp =>
      var h := ParseTcp(payload);
      TcpVerifies(if dir.Incoming? then h.(destPort := port) else h.(srcPort := port), src, dst);
    case Icmp => IcmpVerifies(payload, port);
  }

  /** Of the two representations of zero, a TCP checksum is never written as 0xffff, and an ICMP
      checksum only when the rest of the message is zero. (For UDP, where zero means that there
      is none, RewriteVerifies leaves 0xffff as the only choice.) */
  lemma ChecksumForm(proto: Protocol, dir: Direction, payload: seq<byte>, port: u16, src: u32, dst: u32)
    requires ParsePorts(proto, payload).Ports? && !proto.Udp?
    requires Rewrite(proto, dir, payload, port, src, dst).Packet?
    ensures var b := Rewrite(proto, dir, payload, port, src, dst).bytes;
      && |b| >= 2 + ChecksumOffset(proto)
      && (ChecksumField(proto, b) == 0xffff ==> proto.Icmp? && WordSum(b) == 0xffff)
  {
    var b := Rewrite(proto, dir, payload, port, src, dst).bytes;
    if proto.Tcp? {
      var h := ParseTcp(payload);
      var h' := if dir.Incoming? then h.(destPort := port) else h.(srcPort := port);
      var zeroed := TcpBytes(h'.(checkSum := 0));
      var w := Fold(PseudoHeaderSum(src, dst, IP_PROTOCOL_NUM_TCP, |zeroed|) + WordSum(zeroed));
      assert w != 0xffff;
      TcpFixedFields(h'.(checkSum := w));
    } else {
      IcmpChecksumForm(Splice(payload, 4, port));
    }
  }

  lemma IcmpChecksumForm(p: seq<byte>)
    requires |p| >= 16
    ensures var zeroed := Splice(p, 2, 0);
      var w := Fold(WordSum(zeroed));
      var b := Splice(zeroed, 2, w);
      ChecksumField(Icmp, b) == w && (w == 0xffff ==> WordSum(b) == 0xffff)
  {
    hide WordSum;
    var zeroed := Splice(p, 2, 0);
    var w := Fold(WordSum(zeroed));
    SpliceFields(zeroed, 2, w, 0, 0);
    SpliceFields(p, 2, 0, 0, 0);
    SpliceSum(zeroed, 2, w);
  }

  /** The UDP header up to its checksum field. */
  function UdpFront(h: UdpHeader): (b: seq<byte>)
    ensures |b| == 6
  {
    Uint16ToByte(h.srcPort) + Uint16ToByte(h.destPort) + Uint16ToByte(h.segmentLen)
  }

  lemma UdpLayout(h: UdpHeader, c: u16, data: seq<byte>)
    ensures UdpBytes(h.(checkSum := c)) + data == UdpFront(h) + Uint16ToByte(c) + data
  {
  }

  lemma UdpVerifies(h: UdpHeader, payload: seq<byte>, src: u32, dst: u32)
    requires UdpOutput(h, payload, src, dst).Packet?
    ensures var b := UdpOutput(h, payload, src, dst).bytes;
      && |b| == |payload| >= 8 && (ChecksumField(Udp, b) == 0 <==> h.checkSum == 0)
      && (h.checkSum == 0 || Verifies(ReceiverSum(Udp, src, dst, b)))
  {
    hide UdpBytes, UdpFront, WordSum, PseudoHeaderSum;
    var data := payload[8..];
    if h.checkSum == 0 {
      UdpParseBytes(h, data);
    } else {
      var extra := PseudoHeaderSum(src, dst, IP_PROTOCOL_NUM_UDP, |payload|);
      var c := Fold(extra + WordSum(UdpBytes(h.(checkSum := 0)) + data));
      var w := if c == 0 then 0xffff else c;
      UdpLayout(h, 0, data);
      UdpLayout(h, w, data);
      WrittenChecksumVerifies(extra, UdpFront(h), data);
      UdpParseBytes(h.(checkSum := w), data);
    }
  }

  /** The TCP segment before and after its checksum field. */
  function TcpFront(h: TcpHeader): (b: seq<byte>)
    ensures |b| == 16
  {
    TcpFixed(h)[..16]
  }

  function TcpBack(h: TcpHeader): seq<byte> {
    Uint16ToByte(h.urgPointer) + h.options + h.tcpdata
  }

  lemma TcpLayout(h: TcpHeader, c: u16)
    ensures TcpBytes(h.(checkSum := c)) == TcpFront(h) + Uint16ToByte(c) + TcpBack(h)
  {
    assert TcpFixed(h.(checkSum := c)) == TcpFront(h) + Uint16ToByte(c) + Uint16ToByte(h.urgPointer);
  }

  lemma TcpVerifies(h: TcpHeader, src: u32, dst: u32)
    requires TcpOutput(h, src, dst).Packet?
    ensures var b := TcpOutput(h, src, dst).bytes;
      |b| >= 20 && Verifies(ReceiverSum(Tcp, src, dst, b))
  {
    hide TcpFixed, TcpFront, TcpBack, WordSum, PseudoHeaderSum;
    var zeroed := TcpBytes(h.(checkSum := 0));
    var extra := PseudoHeaderSum(src, dst, IP_PROTOCOL_NUM_TCP, |zeroed|);
    var c := Fold(extra + WordSum(zeroed));
    TcpLayout(h, 0);
    TcpLayout(h, c);
    WrittenChecksumVerifies(extra, TcpFront(h), TcpBack(h));
  }

  lemma IcmpVerifies(payload: seq<byte>, id: u16)
    requires |payload| >= 16 && IcmpOutput(payload, id).Packet?
    ensures var b := IcmpOutput(payload, id).bytes;
      |b| == |payload| && Verifies(WordSum(b))
  {
    hide WordSum;
    var p := Splice(payload, 4, id);
    var zeroed := Splice(p, 2, 0);
    var w := Fold(WordSum(zeroed));
    assert zeroed == p[..2] + Uint16ToByte(0) + p[4..];
    assert Splice(zeroed, 2, w) == p[..2] + Uint16ToByte(w) + p[4..];
    WrittenChecksumVerifies(0, p[..2], p[4..]);
  }

  /** The next parser sees the rewritten port and every other port as before. */
  lemma RewrittenPorts(proto: Protocol, dir: Direction, payload: seq<byte>, port: u16, src: u32, dst: u32)
    requires WellFormed(proto, payload) && ParsePorts(proto, payload).Ports?
    requires Rewrite(proto, dir, payload, port, src, dst).Packet?
    ensures var b := Rewrite(proto, dir, payload, port, src, dst).bytes;
      && WellFormed(proto, b)
      && ParsePorts(proto, b) == if proto.Icmp? then Ports(port, port)
                                 else if dir.Incoming? then ParsePorts(proto, payload).(destPort := port)
                                 else ParsePorts(proto, payload).(srcPort := port)
  {
    hide Rewrite, Patched;
    RewriteFrames(proto, dir, payload, port, src, dst);
    PatchedPorts(proto, dir, payload, port, ChecksumField(proto, Rewrite(proto, dir, payload, port, src, dst).bytes));
  }

  lemma PatchedPorts(proto: Protocol, dir: Direction, payload: seq<byte>, port: u16, w: u16)
    requires WellFormed(proto, payload) && ParsePorts(proto, payload).Ports?
    ensures |payload| >= 2 + ChecksumOffset(proto) && |payload| >= 2 + PortOffset(proto, dir)
    ensures var b := Patched(proto, dir, payload, port, w);
      && WellFormed(proto, b)
      && ParsePorts(proto, b) == if proto.Icmp? then Ports(port, port)
                                 else if dir.Incoming? then ParsePorts(proto, payload).(destPort := port)
                                 else ParsePorts(proto, payload).(srcPort := port)
  {
    var b := Patched(proto, dir, payload, port, w);
    var at, mid := PortOffset(proto, dir), Splice(payload, PortOffset(proto, dir), port);
    SpliceFields(mid, ChecksumOffset(proto), w, at, at + 2);
    if proto.Icmp? {
      SpliceFields(payload, at, port, 0, 2);
      SpliceFields(mid, 2, w, 0, 2);
      assert b[0..2] == payload[0..2];
    } else {
      var other := 2 - at;
      SpliceFields(payload, at, port, other, other + 2);
      SpliceFields(mid, ChecksumOffset(proto), w, other, other + 2);
      if proto.Tcp? {
        assert b[12] == payload[12];
      }
    }
  }

  /** The port field (ICMP: identifier) of a segment, whatever the rest of it. */
  function PortField(proto: Protocol, dir: Direction, b: seq<byte>): u16
    requires |b| >= 2 + PortOffset(proto, dir)
  {
    ByteToUint16(b[PortOffset(proto, dir)..PortOffset(proto, dir) + 2])
  }

  /** Every segment that comes out carries the new port, malformed ones included. */
  lemma RewrittenPortField(proto: Protocol, dir: Direction, payload: seq<byte>, port: u16, src: u32, dst: u32)
    requires ParsePorts(proto, payload).Ports?
    requires Rewrite(proto, dir, payload, port, src, dst).Packet?
    ensures var b := Rewrite(proto, dir, payload, port, src, dst).bytes;
      |b| >= 2 + PortOffset(proto, dir) && PortField(proto, dir, b) == port
  {
    hide Rewrite, Patched, PortField;
    RewriteOutcome(proto, dir, payload, port, src, dst);
    if WellFormed(proto, payload) {
      RewriteFrames(proto, dir, payload, port, src, dst);
      PatchedPortField(proto, dir, payload, port,
                       ChecksumField(proto, Rewrite(proto, dir, payload, port, src, dst).bytes));
    } else {
      MalformedTcpReplaced(dir, payload, port, src, dst);
      PatchedPortField(Tcp, dir, seq(20, _ => 0), port,
                       ChecksumField(Tcp, Rewrite(Tcp, dir, payload, port, src, dst).bytes));
    }
  }

  lemma PatchedPortField(proto: Protocol, dir: Direction, p: seq<byte>, port: u16, w: u16)
    requires |p| >= 2 + ChecksumOffset(proto) && |p| >= 2 + PortOffset(proto, dir)
    ensures PortField(proto, dir, Patched(proto, dir, p, port, w)) == port
  {
    var at := PortOffset(proto, dir);
    SpliceFields(p, at, port, 0, 0);
    SpliceFields(Splice(p, at, port), ChecksumOffset(proto), w, at, at + 2);
  }

  // ---------- Recomputed against adjusted checksums ----------

  /** The words that translation may change besides the checksum, as they enter the sum. */
  function ChangedWords(proto: Protocol, dir: Direction, src: u32, dst: u32, b: seq<byte>): nat
    requires |b| >= 2 + PortOffset(proto, dir)
  {
    PortField(proto, dir, b) + if proto.Icmp? then 0 else PseudoHeaderSum(src, dst, 0, 0)
  }

  /** The checksum of b is that of payload adjusted by the changed words (section 4.2 of
      RFC 3022), up to the two representations of zero. */
  predicate Adjusted(proto: Protocol, dir: Direction, payload: seq<byte>, before: nat, b: seq<byte>, after: nat)
    requires |payload| >= 2 + ChecksumOffset(proto) && |b| >= 2 + ChecksumOffset(proto)
  {
    (ChecksumField(proto, payload) + before - (ChecksumField(proto, b) + after)) % 0xffff == 0
  }

  lemma SpliceSum(p: seq<byte>, at: nat, w: u16)
    requires at % 2 == 0 && at + 2 <= |p|
    ensures WordSum(Splice(p, at, w)) + ByteToUint16(p[at..at + 2]) == WordSum(p) + w
  {
    hide WordSum, ByteToUint16, Uint16ToByte;
    var was := p[at..at + 2];
    Word16RoundTrip(was);
    WordSumSplice(p[..at], w, p[at + 2..]);
    WordSumSplice(p[..at], ByteToUint16(was), p[at + 2..]);
    assert was[..2] == was;
    assert p == p[..at] + was + p[at + 2..];
  }

  /** A framed segment's sum differs only by the changed words and the checksum. */
  lemma FramedSum(proto: Protocol, dir: Direction, payload: seq<byte>, port: u16, b: seq<byte>)
    requires Framed(proto, dir, payload, port, b)
    ensures PortField(proto, dir, b) == port
    ensures WordSum(b) + PortField(proto, dir, payload) + ChecksumField(proto, payload)
         == WordSum(payload) + port + ChecksumField(proto, b)
  {
    hide WordSum;
    var at, ck := PortOffset(proto, dir), ChecksumOffset(proto);
    var mid := Splice(payload, at, port);
    SpliceSum(payload, at, port);
    SpliceSum(mid, ck, ChecksumField(proto, b));
    SpliceFields(payload, at, port, ck, ck + 2);
    SpliceFields(mid, ck, ChecksumField(proto, b), at, at + 2);
  }

  /** The checksum natExec computes afresh is the one that came in, adjusted, exactly when the
      segment arrived with a sum that is a multiple of 65535; so a segment that arrived valid
      leaves as if its checksum had been updated, and any other leaves repaired. */
  lemma RecomputedIsAdjusted(proto: Protocol, dir: Direction, payload: seq<byte>, port: u16,
                             src: u32, dst: u32, src': u32, dst': u32, b: seq<byte>)
    requires Framed(proto, dir, payload, port, b) && Verifies(ReceiverSum(proto, src', dst', b))
    ensures Adjusted(proto, dir, payload, ChangedWords(proto, dir, src, dst, payload),
                     b, ChangedWords(proto, dir, src', dst', b))
        <==> ReceiverSum(proto, src, dst, payload) % 0xffff == 0
  {
    hide WordSum, Patched, ChecksumField, PortField;
    FramedSum(proto, dir, payload, port, b);
    var before, after := ReceiverSum(proto, src, dst, payload), ReceiverSum(proto, src', dst', b);
    VerifiesIff(after);
    ChangedSum(proto, dir, src, dst, payload);
    ChangedSum(proto, dir, src', dst', b);
    CongruentExactly(before, after, ChecksumField(proto, payload) + ChangedWords(proto, dir, src, dst, payload)
                                    - (ChecksumField(proto, b) + ChangedWords(proto, dir, src', dst', b)));
  }

  lemma ChangedSum(proto: Protocol, dir: Direction, src: u32, dst: u32, b: seq<byte>)
    requires |b| >= 2 + PortOffset(proto, dir)
    ensures ReceiverSum(proto, src, dst, b) + PortField(proto, dir, b)
         == ChangedWords(proto, dir, src, dst, b) + ReceiverSum(proto, 0, 0, b)
  {
  }

  lemma CongruentExactly(before: nat, after: nat, d: int)
    requires after % 0xffff == 0 && d == before - after
    ensures d % 0xffff == 0 <==> before % 0xffff == 0
  {
  }

  // ---------- UDP length fields that disagree with the IP length ----------

  /** What is left of the sum of p beyond its first len bytes. */
  function SumBeyond(p: seq<byte>, len: nat): nat
    requires len <= |p|
  {
    if len % 2 == 0 then WordSum(p[len..])
    else if len == |p| then 0
    else p[len] as int + WordSum(p[len + 1..])
  }

  lemma SumSplit(p: seq<byte>, len: nat)
    requires len <= |p|
    ensures WordSum(p) == WordSum(p[..len]) + SumBeyond(p, len)
  {
    hide WordSum;
    if len % 2 == 0 {
      WordSumConcat(p[..len], p[len..]);
      assert p == p[..len] + p[len..];
    } else if len == |p| {
      assert p[..len] == p;
    } else {
      SumSplitOdd(p[..len - 1], p[len - 1], p[len], p[len + 1..]);
      assert p == p[..len - 1] + [p[len - 1], p[len]] + p[len + 1..];
      assert p[..len] == p[..len - 1] + [p[len - 1]];
    }
  }

  lemma SumSplitOdd(front: seq<byte>, high: byte, low: byte, back: seq<byte>)
    requires |front| % 2 == 0
    ensures WordSum(front + [high, low] + back) == WordSum(front + [high]) + low as int + WordSum(back)
  {
    WordSumConcat(front, [high]);
    WordSumConcat(front + [high, low], back);
    WordSumConcat(front, [high, low]);
    assert [high, low][2..] == [];
  }

  /** What a receiver does with a UDP checksum (RFC 768): the datagram is as long as its
      Length field says, both in the pseudo header and in the data that is summed. */
  predicate UdpAccepted(src: u32, dst: u32, b: seq<byte>) {
    var len := ParseUdp(b).segmentLen;
    8 <= len <= |b| && Verifies(PseudoHeaderSum(src, dst, 17, len) + WordSum(b[..len]))
  }

  /** A datagram whose bytes beyond its length field do not show in the checksum: none, or by
      coincidence. The source could check this before the call. */
  predicate TrailerNeutral(payload: seq<byte>) {
    var len := ParseUdp(payload).segmentLen;
    8 <= len <= |payload| && (|payload| - len + SumBeyond(payload, len)) % 0xffff == 0
  }

  /** natExec sums the whole IP payload under its length. A receiver that goes by the length
      field accepts the checksummed datagram that leaves exactly when what lies beyond that
      length is neutral in the sum, in particular when the two lengths agree. */
  lemma UdpLengthField(dir: Direction, payload: seq<byte>, port: u16, src: u32, dst: u32)
    requires Rewrite(Udp, dir, payload, port, src, dst).Packet? && ChecksumField(Udp, payload) != 0
    ensures UdpAccepted(src, dst, Rewrite(Udp, dir, payload, port, src, dst).bytes) <==> TrailerNeutral(payload)
    ensures ParseUdp(payload).segmentLen == |payload| ==> TrailerNeutral(payload)
  {
    hide Rewrite, WordSum, SumBeyond, PseudoHeaderSum, ParseUdp, ChecksumField, Fold;
    var b := Rewrite(Udp, dir, payload, port, src, dst).bytes;
    var n, len := |payload|, ParseUdp(payload).segmentLen;
    RewriteVerifies(Udp, dir, payload, port, src, dst);
    KeptBeyondHeader(dir, payload, port, src, dst);
    SumBeyondAll(payload);
    if 8 <= len <= n {
      SumSplit(b, len);
      PseudoLength(src, dst, len, n);
      var part := PseudoHeaderSum(src, dst, IP_PROTOCOL_NUM_UDP, len) + WordSum(b[..len]);
      SplitVerifies(part, n - len + SumBeyond(payload, len));
    }
  }

  lemma SumBeyondAll(p: seq<byte>)
    ensures SumBeyond(p, |p|) == 0
  {
    assert p[|p|..] == [];
  }

  /** Taking a part off a verifying sum leaves a verifying sum exactly when the part is a
      multiple of 65535. */
  lemma SplitVerifies(part: nat, rest: nat)
    requires part > 0 && Verifies(part + rest)
    ensures Verifies(part) <==> rest % 0xffff == 0
  {
    VerifiesIff(part + rest);
    VerifiesIff(part);
  }

  lemma PseudoLength(src: u32, dst: u32, len: nat, n: nat)
    requires len <= n
    ensures PseudoHeaderSum(src, dst, IP_PROTOCOL_NUM_UDP, n)
         == PseudoHeaderSum(src, dst, IP_PROTOCOL_NUM_UDP, len) + (n - len)
    ensures PseudoHeaderSum(src, dst, IP_PROTOCOL_NUM_UDP, len) > 0
  {
  }

  lemma KeptBeyondHeader(dir: Direction, payload: seq<byte>, port: u16, src: u32, dst: u32)
    requires Rewrite(Udp, dir, payload, port, src, dst).Packet?
    ensures var b := Rewrite(Udp, dir, payload, port, src, dst).bytes;
      && |b| == |payload| >= 8 && ParseUdp(b).segmentLen == ParseUdp(payload).segmentLen
      && forall len: nat :: 8 <= len <= |b| ==> SumBeyond(b, len) == SumBeyond(payload, len)
  {
    RewriteFrames(Udp, dir, payload, port, src, dst);
    var b := Rewrite(Udp, dir, payload, port, src, dst).bytes;
    var at, mid := PortOffset(Udp, dir), Splice(payload, PortOffset(Udp, dir), port);
    SpliceFields(payload, at, port, 4, 6);
    SpliceFields(mid, 6, ChecksumField(Udp, b), 4, 6);
    forall len: nat | 8 <= len <= |b|
      ensures SumBeyond(b, len) == SumBeyond(payload, len)
    {
      PatchedTail(dir, payload, port, ChecksumField(Udp, b), len);
      if len < |b| {
        PatchedTail(dir, payload, port, ChecksumField(Udp, b), len + 1);
      }
    }
  }

  lemma PatchedTail(dir: Direction, payload: seq<byte>, port: u16, w: u16, len: nat)
    requires 8 <= len <= |payload|
    ensures Patched(Udp, dir, payload, port, w)[len..] == payload[len..]
    ensures len < |payload| ==> Patched(Udp, dir, payload, port, w)[len] == payload[len]
  {
  }

  /** Ten bytes of IP payload under a length field of eight: no receiver that goes by the
      length field accepts what natExec makes of them. */
  lemma ShortLengthExample(dir: Direction, p: seq<byte>, port: u16, src: u32, dst: u32)
    requires p == [0, 53, 0, 53, 0, 8, 0, 1, 7, 7]
    ensures var o := Rewrite(Udp, dir, p, port, src, dst);
      o.Packet? && !UdpAccepted(src, dst, o.bytes)
  {
    ShortLengthFields(p);
    hide Rewrite, SumBeyond, WordSum, ParseUdp, ChecksumField;
    RewriteOutcome(Udp, dir, p, port, src, dst);
    assert Rewrite(Udp, dir, p, port, src, dst).Packet?;
    assert !TrailerNeutral(p);
    UdpLengthField(dir, p, port, src, dst);
  }

  lemma ShortLengthFields(p: seq<byte>)
    requires p == [0, 53, 0, 53, 0, 8, 0, 1, 7, 7]
    ensures ParseUdp(p).segmentLen == 8 && ChecksumField(Udp, p) == 1 && SumBeyond(p, 8) == 0x707
  {
    var len, cksum, trailer := p[4..6], p[6..8], p[8..];
    assert len == [0, 8] && cksum == [0, 1] && trailer == [7, 7];
    var last := trailer[2..];
    assert last == [] && WordSum(last) == 0;
    assert WordSum(trailer) == ByteToUint16(trailer) + WordSum(last) == 0x707;
  }

  // ---------- Where the code falls short of framing ----------

  /** A malformed TCP segment is replaced by the twenty bytes of a zero header: the length of
      a segment that comes out is that of the segment that went in exactly when that was well
      formed or happened to be twenty bytes long. */
  lemma RewriteLength(proto: Protocol, dir: Direction, payload: seq<byte>, port: u16, src: u32, dst: u32)
    requires ParsePorts(proto, payload).Ports?
    requires Rewrite(proto, dir, payload, port, src, dst).Packet?
    ensures var b := Rewrite(proto, dir, payload, port, src, dst).bytes;
      |b| == |payload| <==> WellFormed(proto, payload) || |payload| == 20
  {
    if WellFormed(proto, payload) {
      RewriteFrames(proto, dir, payload, port, src, dst);
    }
  }

  /** The bytes that replace a malformed TCP segment: those of a zero header, with the new port
      and a checksum. */
  lemma MalformedTcpReplaced(dir: Direction, payload: seq<byte>, port: u16, src: u32, dst: u32)
    requires !WellFormedTcp(payload)
    ensures var o := Rewrite(Tcp, dir, payload, port, src, dst);
      && o.Packet? && |o.bytes| == 20
      && o.bytes == Patched(Tcp, dir, seq(20, _ => 0), port, ChecksumField(Tcp, o.bytes))
  {
    var h := if dir.Incoming? then ZERO_TCP.(destPort := port) else ZERO_TCP.(srcPort := port);
    hide TcpFixed, Splice, WordSum, PseudoHeaderSum, Fold;
    var zeroed := TcpBytes(h.(checkSum := 0));
    var w := Fold(PseudoHeaderSum(src, dst, IP_PROTOCOL_NUM_TCP, |zeroed|) + WordSum(zeroed));
    assert Rewrite(Tcp, dir, payload, port, src, dst) == Packet(TcpBytes(h.(checkSum := w)));
    TcpFixedFields(h.(checkSum := w));
    ZeroTcpBytes();
    TcpFixedPatched(ZERO_TCP, port);
    TcpFixedPatched(h, w);
    assert TcpBytes(h.(checkSum := w)) == TcpFixed(h.(checkSum := w));
  }

  lemma ZeroTcpBytes()
    ensures TcpFixed(ZERO_TCP) == seq(20, _ => 0)
  {
  }

  /** The segment b is payload with only port and checksum field replaced. */
  predicate Framed(proto: Protocol, dir: Direction, payload: seq<byte>, port: u16, b: seq<byte>) {
    && |b| == |payload| >= 2 + ChecksumOffset(proto) && |b| >= 2 + PortOffset(proto, dir)
    && b == Patched(proto, dir, payload, port, ChecksumField(proto, b))
  }

  /** Twenty bytes that are zero outside port and checksum field. */
  predicate BlankTcp(dir: Direction, payload: seq<byte>) {
    && |payload| == 20
    && forall k :: 0 <= k < 20 && !(PortOffset(Tcp, dir) <= k < PortOffset(Tcp, dir) + 2) && !(16 <= k < 18) ==>
         payload[k] == 0
  }

  /** Framing holds exactly for the well-formed segments, and for the one malformed shape that
      the zero header reproduces. */
  lemma FramedExactly(proto: Protocol, dir: Direction, payload: seq<byte>, port: u16, src: u32, dst: u32)
    requires ParsePorts(proto, payload).Ports?
    requires Rewrite(proto, dir, payload, port, src, dst).Packet?
    ensures Framed(proto, dir, payload, port, Rewrite(proto, dir, payload, port, src, dst).bytes)
        <==> WellFormed(proto, payload) || BlankTcp(dir, payload)
  {
    var b := Rewrite(proto, dir, payload, port, src, dst).bytes;
    if WellFormed(proto, payload) {
      RewriteFrames(proto, dir, payload, port, src, dst);
    } else {
      hide Rewrite;
      MalformedTcpReplaced(dir, payload, port, src, dst);
      if |payload| == 20 {
        PatchedEqual(dir, payload, port, ChecksumField(Tcp, b));
      }
    }
  }

  lemma PatchedEqual(dir: Direction, payload: seq<byte>, port: u16, w: u16)
    requires |payload| == 20
    ensures Patched(Tcp, dir, payload, port, w) == Patched(Tcp, dir, seq(20, _ => 0), port, w)
        <==> BlankTcp(dir, payload)
  {
    var at, zeros: seq<byte> := PortOffset(Tcp, dir), seq(20, _ => 0);
    var a, b := Patched(Tcp, dir, payload, port, w), Patched(Tcp, dir, zeros, port, w);
    assert forall k :: 0 <= k < 20 && !(at <= k < at + 2) && !(16 <= k < 18) ==> a[k] == payload[k] && b[k] == zeros[k];
    assert forall k :: at <= k < at + 2 || 16 <= k < 18 ==> a[k] == b[k];
    if BlankTcp(dir, payload) {
      assert a == b;
    }
  }

  /** An odd-length segment, nine bytes of UDP with a checksum: natExec panics on it whenever
      its sender has, or can be given, a slot. */
  lemma OddLengthExample(outside: u32, t: Tables, c: Call)
    requires Valid(t) && c.proto.Udp? && c.dir.Outgoing? && c.payload == [0, 53, 0, 53, 0, 9, 0, 1, 7]
    requires Endpoint(c.src, 53) in t.udp || |t.udp| < Capacity(Udp)
    ensures NatExec(outside, t, c).output == Panic
  {
    assert c.payload[0..2] == [0, 53] && c.payload[6..8] == [0, 1];
    ExecRewrites(outside, t, c);
    RewriteOutcome(Udp, Outgoing, c.payload, RewrittenPort(outside, t, c), outside, c.dst);
  }
}
