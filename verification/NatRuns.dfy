/** Whole runs of natExec: what every call keeps, which endpoint gets which global port, and
    how an answer finds its way back. A run includes calls that return errors, but none that
    panics: nothing recovers, so a panic ends the process and with it the tables. */
module NatRuns {
  import opened Bytes
  import opened Checksum
  import opened Headers
  import opened Nat

  /** The tables configureIPNat builds: every slot free. */
  const EMPTY := Tables([], [], [])

  /** Every call of the run returns, with or without an error. */
  ghost predicate Returns(outside: u32, t: Tables, calls: seq<Call>)
    requires Valid(t)
    decreases |calls|
  {
    calls == [] ||
    (!NatExec(outside, t, calls[0]).output.Panic?
     && Returns(outside, NatExec(outside, t, calls[0]).tables, calls[1..]))
  }

  ghost function Run(outside: u32, t: Tables, calls: seq<Call>): (r: Tables)
    requires Valid(t) && Returns(outside, t, calls)
    ensures Valid(r)
    decreases |calls|
  {
    if calls == [] then t
    else
      Run(outside, NatExec(outside, t, calls[0]).tables, calls[1..])
  }

  // ---------- One call ----------

  /** The local endpoint with which a call reaches the outgoing lookup, if it does. */
  function Reaching(c: Call): Option<Endpoint> {
    if c.dir.Incoming? then None
    else match ParsePorts(c.proto, c.payload)
         case Ports(srcPort, _) => Some(Endpoint(c.src, srcPort))
         case Refused(_) => None
  }

  /** The table after an endpoint has been looked up: unchanged when present or when all
      slots are taken, otherwise the first free slot goes to the endpoint. */
  function Admit(l: Locals, e: Endpoint, capacity: nat): Locals {
    if e in l || |l| >= capacity then l else l + [e]
  }

  /** Only an outgoing call that reaches the lookup can change anything, and only its own
      protocol's table, by admitting its endpoint. Incoming calls change no table. */
  lemma StepTables(outside: u32, t: Tables, c: Call, proto: Protocol)
    requires Valid(t)
    ensures NatExec(outside, t, c).tables.Get(proto) ==
      if proto == c.proto && Reaching(c).Some?
      then Admit(t.Get(proto), Reaching(c).value, Capacity(proto))
      else t.Get(proto)
  {
    var l := t.Get(c.proto);
    if Reaching(c).Some? {
      var i := IndexOf(l, Reaching(c).value);
    }
  }

  /** A table is reported full exactly when the endpoint owns no slot and all slots are
      owned; the call then changes nothing. */
  lemma FullExactly(outside: u32, t: Tables, c: Call)
    requires Valid(t)
    ensures var r := NatExec(outside, t, c);
      && (r.output == Error(TableFull) <==>
            Reaching(c).Some? && Reaching(c).value !in t.Get(c.proto) && |t.Get(c.proto)| == Capacity(c.proto))
      && (r.output == Error(TableFull) ==> r.tables == t && r.src == c.src && r.dst == c.dst)
  {
    if Reaching(c).Some? {
      var i := IndexOf(t.Get(c.proto), Reaching(c).value);
    }
    match ParsePorts(c.proto, c.payload) {
      case Refused(_) =>
      case Ports(_, _) => NoTableError(outside, t, c);
    }
  }

  /** Rewriting itself never reports a table error. */
  lemma NoTableError(outside: u32, t: Tables, c: Call)
    requires ParsePorts(c.proto, c.payload).Ports?
    ensures forall port: u16, src: u32, dst: u32 ::
      var o := Rewrite(c.proto, c.dir, c.payload, port, src, dst);
      o.Error? ==> o.error == UdpTooShort
  {
  }

  /** A segment whose recomputed checksum makes the sum loop panic. */
  predicate OddSum(c: Call) {
    WellFormed(c.proto, c.payload) && |c.payload| % 2 == 1
    && !(c.proto.Udp? && ChecksumField(Udp, c.payload) == 0)
  }

  /** The calls that panic: ICMP too short to parse, and odd sums after the translation. */
  predicate Panics(outside: u32, t: Tables, c: Call) {
    (c.proto.Icmp? && |c.payload| < 16) || (Translates(outside, t, c) && OddSum(c))
  }

  /** Every outcome of a call, each with its exact condition: ICMP messages other than echo
      and its reply are refused, UDP without a header is refused after the lookup, a lookup
      may fail, ICMP below sixteen bytes and odd sums panic, and all else is translated. */
  lemma OutcomeExactly(outside: u32, t: Tables, c: Call)
    requires Valid(t)
    ensures var o, n := NatExec(outside, t, c).output, |c.payload|;
      var translates := Translates(outside, t, c);
      && (o == Error(IcmpTypeNotAllowed) <==>
            c.proto.Icmp? && n >= 16 && c.payload[0] != 0 && c.payload[0] != 8)
      && (o == Error(NoEntry) <==> ParsePorts(c.proto, c.payload).Ports? && c.dir.Incoming? && !translates)
      && (o == Error(TableFull) <==> ParsePorts(c.proto, c.payload).Ports? && c.dir.Outgoing? && !translates)
      && (o == Error(UdpTooShort) <==> translates && c.proto.Udp? && n < 8)
      && (o.Panic? <==> Panics(outside, t, c))
      && (o.Packet? <==> translates && !(c.proto.Udp? && n < 8) && !OddSum(c))
  {
    hide Rewrite;
    ExecRewrites(outside, t, c);
    if Translates(outside, t, c) {
      var r := NatExec(outside, t, c);
      NoTableError(outside, t, c);
      RewriteOutcome(c.proto, c.dir, c.payload, RewrittenPort(outside, t, c), r.src, r.dst);
    }
  }

  /** A call that is refused with an error changes the tables exactly when it is an outgoing
      UDP packet too short for a header, from a new sender, while a slot is free: the slot is
      then taken for local port 0. */
  lemma ErrorAllocatesExactly(outside: u32, t: Tables, c: Call)
    requires Valid(t) && NatExec(outside, t, c).output.Error?
    ensures var r, e := NatExec(outside, t, c).tables, Endpoint(c.src, 0);
      && (r != t <==>
            c.proto.Udp? && c.dir.Outgoing? && |c.payload| < 8 && e !in t.udp && |t.udp| < Capacity(Udp))
      && (r != t ==> r == t.(udp := t.udp + [e]))
  {
    OutcomeExactly(outside, t, c);
    StepTables(outside, t, c, Udp);
    StepTables(outside, t, c, Tcp);
    StepTables(outside, t, c, Icmp);
  }

  /** The concrete shape of that: refused, and only after it has been given the slot. */
  lemma ShortUdpAllocates(outside: u32, t: Tables, c: Call)
    requires Valid(t) && c.proto.Udp? && c.dir.Outgoing? && |c.payload| < 8
    requires Endpoint(c.src, 0) !in t.udp && |t.udp| < Capacity(Udp)
    ensures var r := NatExec(outside, t, c);
      r.output == Error(UdpTooShort) && r.tables == t.(udp := t.udp + [Endpoint(c.src, 0)])
  {
    OutcomeExactly(outside, t, c);
    ErrorAllocatesExactly(outside, t, c);
  }

  /** A translated segment carries the translation's port, verifies over its whole length
      between the addresses that natExec leaves in the IP header (unless it is UDP without
      checksum, before and after), and when well formed differs in nothing else. */
  ghost predicate Translated(proto: Protocol, dir: Direction, payload: seq<byte>, port: u16,
                             src: u32, dst: u32, b: seq<byte>) {
    && |b| >= 2 + ChecksumOffset(proto) && |b| >= 2 + PortOffset(proto, dir) && PortField(proto, dir, b) == port
    && (WellFormed(proto, payload) ==> Framed(proto, dir, payload, port, b))
    && (proto.Udp? ==> |payload| >= 8 && (ChecksumField(Udp, b) == 0 <==> ChecksumField(Udp, payload) == 0))
    && ((proto.Udp? && ChecksumField(Udp, b) == 0) || Verifies(ReceiverSum(proto, src, dst, b)))
    && (proto.Udp? && ChecksumField(Udp, b) != 0 ==> (UdpAccepted(src, dst, b) <==> TrailerNeutral(payload)))
  }

  /** Every segment that natExec returns is the translated one, whatever the one that came in. */
  lemma TranslatedSegment(outside: u32, t: Tables, c: Call)
    requires Valid(t) && NatExec(outside, t, c).output.Packet?
    ensures Translates(outside, t, c)
    ensures var r := NatExec(outside, t, c);
      Translated(c.proto, c.dir, c.payload, RewrittenPort(outside, t, c), r.src, r.dst, r.output.bytes)
  {
    hide NatExec;
    ExecRewrites(outside, t, c);
    var r := NatExec(outside, t, c);
    RewriteTranslates(c.proto, c.dir, c.payload, RewrittenPort(outside, t, c), r.src, r.dst);
  }

  lemma RewriteTranslates(proto: Protocol, dir: Direction, payload: seq<byte>, port: u16, src: u32, dst: u32)
    requires ParsePorts(proto, payload).Ports?
    requires Rewrite(proto, dir, payload, port, src, dst).Packet?
    ensures Translated(proto, dir, payload, port, src, dst, Rewrite(proto, dir, payload, port, src, dst).bytes)
  {
    hide Rewrite, Patched, ReceiverSum, ChecksumField, UdpAccepted, TrailerNeutral, ParsePorts;
    RewriteOutcome(proto, dir, payload, port, src, dst);
    RewriteVerifies(proto, dir, payload, port, src, dst);
    RewrittenPortField(proto, dir, payload, port, src, dst);
    if WellFormed(proto, payload) {
      RewriteFrames(proto, dir, payload, port, src, dst);
    }
    if proto.Udp? && ChecksumField(Udp, payload) != 0 {
      UdpLengthField(dir, payload, port, src, dst);
    }
  }

  /** The checksum is recomputed, not updated: a translated segment verifies on output whatever
      it did on input, and its checksum is the one that came in, adjusted for the changed words
      (section 4.2 of RFC 3022), exactly when its sum was a multiple of 65535 on input. */
  lemma CorruptionHidden(outside: u32, t: Tables, c: Call)
    requires Valid(t) && NatExec(outside, t, c).output.Packet?
    requires c.proto.Udp? ==> ChecksumField(Udp, c.payload) != 0
    ensures var r := NatExec(outside, t, c);
      var before, b := ReceiverSum(c.proto, c.src, c.dst, c.payload), r.output.bytes;
      && Verifies(ReceiverSum(c.proto, r.src, r.dst, b))
      && (WellFormed(c.proto, c.payload) ==>
            && Framed(c.proto, c.dir, c.payload, RewrittenPort(outside, t, c), b)
            && (Adjusted(c.proto, c.dir, c.payload, ChangedWords(c.proto, c.dir, c.src, c.dst, c.payload),
                         b, ChangedWords(c.proto, c.dir, r.src, r.dst, b))
                <==> before % 0xffff == 0))
  {
    hide NatExec, ReceiverSum, Verifies, Adjusted, ChangedWords, PortField, Patched, UdpAccepted, TrailerNeutral;
    TranslatedSegment(outside, t, c);
    var r, port := NatExec(outside, t, c), RewrittenPort(outside, t, c);
    if WellFormed(c.proto, c.payload) {
      RecomputedIsAdjusted(c.proto, c.dir, c.payload, port, c.src, c.dst, r.src, r.dst, r.output.bytes);
    }
  }

  /** A UDP datagram from 10.0.0.1 to 10.0.0.2 with a wrong checksum arrives corrupted and
      leaves verifying, on fresh tables and behind any outside address. */
  lemma CorruptedExample(outside: u32, c: Call)
    requires c == Call(0x0a00_0001, 0x0a00_0002, [0, 53, 0, 53, 0, 8, 0, 1], Udp, Outgoing)
    ensures Valid(EMPTY) && !Verifies(ReceiverSum(Udp, c.src, c.dst, c.payload))
    ensures var r := NatExec(outside, EMPTY, c);
      r.output.Packet? && Verifies(ReceiverSum(Udp, r.src, r.dst, r.output.bytes))
  {
    CorruptedSum(c.payload);
    hide NatExec, ReceiverSum, WordSum, ChecksumField, RewrittenPort;
    OutcomeExactly(outside, EMPTY, c);
    assert |EMPTY.Get(Udp)| < Capacity(Udp);
    TranslatedSegment(outside, EMPTY, c);
  }

  lemma CorruptedSum(p: seq<byte>)
    requires p == [0, 53, 0, 53, 0, 8, 0, 1]
    ensures ChecksumField(Udp, p) == 1
    ensures !Verifies(ReceiverSum(Udp, 0x0a00_0001, 0x0a00_0002, p))
  {
    var a, b, c, d := p[2..], p[2..][2..], p[2..][2..][2..], p[6..8];
    assert a == [0, 53, 0, 8, 0, 1] && b == [0, 8, 0, 1] && c == [0, 1] && d == [0, 1];
    assert c[2..] == [] && WordSum(c[2..]) == 0;
    assert WordSum(c) == 1;
    assert WordSum(b) == 9;
    assert WordSum(a) == 62;
    assert WordSum(p) == 115;
    VerifiesIff(ReceiverSum(Udp, 0x0a00_0001, 0x0a00_0002, p));
  }

  // ---------- Runs ----------

  /** Slots are never moved or freed: every table only grows at its end. */
  lemma {:induction false} RunExtends(outside: u32, t: Tables, calls: seq<Call>, proto: Protocol)
    requires Valid(t) && Returns(outside, t, calls)
    ensures t.Get(proto) <= Run(outside, t, calls).Get(proto)
    decreases |calls|
  {
    if calls != [] {
      StepTables(outside, t, calls[0], proto);
      RunExtends(outside, NatExec(outside, t, calls[0]).tables, calls[1..], proto);
    }
  }

  /** The endpoints of one protocol that reached the outgoing lookup, in order. */
  function History(calls: seq<Call>, proto: Protocol): Locals {
    if calls == [] then []
    else (if calls[0].proto == proto && Reaching(calls[0]).Some? then [Reaching(calls[0]).value] else [])
         + History(calls[1..], proto)
  }

  /** First occurrences only, in order. */
  function Distincts(h: Locals): Locals {
    if h == [] then []
    else
      var d, e := Distincts(h[..|h| - 1]), h[|h| - 1];
      if e in d then d else d + [e]
  }

  lemma {:induction false} DistinctsAreDistinct(h: Locals)
    ensures Distinct(Distincts(h))
    ensures forall e :: e in Distincts(h) <==> e in h
  {
    if h != [] {
      DistinctsAreDistinct(h[..|h| - 1]);
      assert h == h[..|h| - 1] + [h[|h| - 1]];
    }
  }

  function Take(l: Locals, n: nat): (r: Locals)
    ensures r <= l
  {
    if |l| <= n then l else l[..n]
  }

  lemma AdmitDistincts(h: Locals, e: Endpoint, capacity: nat)
    ensures Admit(Take(Distincts(h), capacity), e, capacity) == Take(Distincts(h + [e]), capacity)
  {
    assert (h + [e])[..|h|] == h;
    var d := Distincts(h);
    if |d| > capacity && e !in d {
      assert (d + [e])[..capacity] == d[..capacity];
    }
  }

  /** Admitting endpoints one after the other. */
  function AdmitAll(l: Locals, h: Locals, capacity: nat): Locals
    decreases |h|
  {
    if h == [] then l else AdmitAll(Admit(l, h[0], capacity), h[1..], capacity)
  }

  lemma {:induction false} RunAdmits(outside: u32, t: Tables, calls: seq<Call>, proto: Protocol)
    requires Valid(t) && Returns(outside, t, calls)
    ensures Run(outside, t, calls).Get(proto) == AdmitAll(t.Get(proto), History(calls, proto), Capacity(proto))
    decreases |calls|
  {
    hide Rewrite, ParsePorts;
    if calls != [] {
      var c, rest := calls[0], History(calls[1..], proto);
      StepTables(outside, t, c, proto);
      RunAdmits(outside, NatExec(outside, t, c).tables, calls[1..], proto);
      if c.proto == proto && Reaching(c).Some? {
        assert ([Reaching(c).value] + rest)[1..] == rest;
      } else {
        assert [] + rest == rest;
      }
    }
  }

  lemma {:induction false} AdmitAllDistincts(g: Locals, h: Locals, capacity: nat)
    ensures AdmitAll(Take(Distincts(g), capacity), h, capacity) == Take(Distincts(g + h), capacity)
    decreases |h|
  {
    hide Distincts, Take, Admit;
    if h == [] {
      assert g + h == g;
    } else {
      AdmitDistincts(g, h[0], capacity);
      AdmitAllDistincts(g + [h[0]], h[1..], capacity);
      assert g + [h[0]] + h[1..] == g + h;
    }
  }

  /** History refinement: after any run on fresh tables, slot n of a table belongs to the
      n-th distinct local endpoint that reached the lookup, up to the table's capacity. */
  lemma RunIsHistory(outside: u32, calls: seq<Call>, proto: Protocol)
    requires Valid(EMPTY) && Returns(outside, EMPTY, calls)
    ensures Run(outside, EMPTY, calls).Get(proto) == Take(Distincts(History(calls, proto)), Capacity(proto))
  {
    assert EMPTY.Get(proto) == [];
    RunAdmits(outside, EMPTY, calls, proto);
    AdmitAllDistincts([], History(calls, proto), Capacity(proto));
    assert [] + History(calls, proto) == History(calls, proto);
  }

  /** Endpoint-independent mapping (section 4.1 of RFC 4787; section 3.1 of RFC 5508 for
      ICMP): after any run, the n-th distinct local endpoint leaves with the outside address
      and global port n from the start of the range, whatever the remote endpoint, exactly
      when n is within the capacity; beyond it the table is full. */
  lemma MappingIsByHistory(outside: u32, calls: seq<Call>, c: Call)
    requires Valid(EMPTY) && Returns(outside, EMPTY, calls) && Reaching(c).Some?
    ensures var r := NatExec(outside, Run(outside, EMPTY, calls), c);
      var n := IndexOf(Distincts(History(calls, c.proto) + [Reaching(c).value]), Reaching(c).value);
      var capacity := if c.proto.Icmp? then 65535 else 40000;
      && (n >= capacity <==> r.output == Error(TableFull))
      && (n < capacity ==> r.src == outside && r.dst == c.dst)
      && (n < capacity && r.output.Packet? ==>
            |r.output.bytes| >= 2 + PortOffset(c.proto, Outgoing)
            && PortField(c.proto, Outgoing, r.output.bytes) == if c.proto.Icmp? then n else 20000 + n)
  {
    hide NatExec, ParsePorts, Run, Distincts, History, PortField, Returns;
    RunIsHistory(outside, calls, c.proto);
    var h, e, cap := History(calls, c.proto), Reaching(c).value, Capacity(c.proto);
    var t := Run(outside, EMPTY, calls);
    var l, d := t.Get(c.proto), Distincts(h + [e]);
    AdmitDistincts(h, e, cap);
    DistinctsAreDistinct(h + [e]);
    assert e in h + [e];
    var n := IndexOf(d, e);
    var a := Admit(l, e, cap);
    assert Take(d, cap) == a;
    if e in a {
      var i :| 0 <= i < |a| && a[i] == e;
      assert d[i] == e;
      assert n <= i;
    }
    FullExactly(outside, t, c);
    ExecRewrites(outside, t, c);
    if n < cap {
      assert a[n] == e;
      SlotOfEndpoint(l, e, cap, n);
      if NatExec(outside, t, c).output.Packet? {
        TranslatedSegment(outside, t, c);
      }
    }
  }

  /** The slot an admitted endpoint owns is where the lookup finds or puts it. */
  lemma SlotOfEndpoint(l: Locals, e: Endpoint, capacity: nat, n: nat)
    requires Distinct(l) && |l| <= capacity
    requires n < |Admit(l, e, capacity)| && Admit(l, e, capacity)[n] == e
    ensures IndexOf(l, e) == n
  {
    if n < |l| {
      IndexOfDistinct(l, n);
    } else {
      assert e !in l;
      assert IndexOf(l, e) == |l|;
    }
  }

  /** An outgoing segment leaves with the port of the slot its endpoint owns afterwards. */
  lemma OutgoingSlot(outside: u32, t: Tables, c: Call) returns (i: nat)
    requires Valid(t) && c.dir.Outgoing? && NatExec(outside, t, c).output.Packet?
    ensures Reaching(c).Some?
    ensures var r := NatExec(outside, t, c);
      && i < |r.tables.Get(c.proto)| <= Capacity(c.proto) && r.tables.Get(c.proto)[i] == Reaching(c).value
      && r.src == outside && r.dst == c.dst && |r.output.bytes| >= 2 + PortOffset(c.proto, Outgoing)
      && PortField(c.proto, Outgoing, r.output.bytes) == GlobalPort(c.proto, i)
  {
    hide NatExec, PortField;
    ExecRewrites(outside, t, c);
    i := IndexOf(t.Get(c.proto), Reaching(c).value);
    StepTables(outside, t, c, c.proto);
    TranslatedSegment(outside, t, c);
  }

  /** Over any run, two outgoing segments of one protocol leave with the same global port
      exactly when they come from the same local endpoint. */
  lemma MappingInjective(outside: u32, t: Tables, a: Call, calls: seq<Call>, b: Call)
    requires Valid(t) && a.proto == b.proto && a.dir.Outgoing? && b.dir.Outgoing?
    requires NatExec(outside, t, a).output.Packet? && Returns(outside, NatExec(outside, t, a).tables, calls)
    requires NatExec(outside, Run(outside, NatExec(outside, t, a).tables, calls), b).output.Packet?
    ensures Reaching(a).Some? && Reaching(b).Some?
    ensures var ra := NatExec(outside, t, a);
      var rb := NatExec(outside, Run(outside, ra.tables, calls), b);
      && |ra.output.bytes| >= 2 + PortOffset(a.proto, Outgoing)
      && |rb.output.bytes| >= 2 + PortOffset(b.proto, Outgoing)
      && (PortField(a.proto, Outgoing, ra.output.bytes) == PortField(b.proto, Outgoing, rb.output.bytes)
          <==> Reaching(a).value == Reaching(b).value)
  {
    hide NatExec, ParsePorts, Run, PortField, Returns;
    var ra := NatExec(outside, t, a);
    var t1 := Run(outside, ra.tables, calls);
    var i := OutgoingSlot(outside, t, a);
    var j := OutgoingSlot(outside, t1, b);
    RunExtends(outside, ra.tables, calls, a.proto);
    StepTables(outside, t1, b, a.proto);
    var l := NatExec(outside, t1, b).tables.Get(a.proto);
    assert l[i] == Reaching(a).value && l[j] == Reaching(b).value;
    assert Distinct(l);
  }

  // ---------- The way back ----------

  /** Translation round trip (section 4.1 of RFC 3022), in terms of what is on the wire: once
      an outgoing segment has left with a translated source, then after any further calls a
      segment addressed to that translated source is rewritten to the original local address
      and port, its own source untouched, and changes no table. */
  lemma RoundTrip(outside: u32, t: Tables, out: Call, calls: seq<Call>, back: Call)
    requires Valid(t) && out.dir.Outgoing? && NatExec(outside, t, out).output.Packet?
    requires Returns(outside, NatExec(outside, t, out).tables, calls)
    requires back.dir.Incoming? && back.proto == out.proto && ParsePorts(back.proto, back.payload).Ports?
    requires var sent := NatExec(outside, t, out);
      && back.dst == sent.src && |sent.output.bytes| >= 2 + PortOffset(out.proto, Outgoing)
      && ParsePorts(back.proto, back.payload).destPort == PortField(out.proto, Outgoing, sent.output.bytes)
    ensures Reaching(out).Some?
    ensures var t' := Run(outside, NatExec(outside, t, out).tables, calls);
      var r, port := NatExec(outside, t', back), Reaching(out).value.port;
      && r.tables == t' && r.src == back.src && r.dst == out.src
      && WellFormed(back.proto, back.payload) && (r.output.Panic? <==> OddSum(back)) && !r.output.Error?
      && (r.output.Packet? ==>
            && Translated(back.proto, Incoming, back.payload, port, back.src, out.src, r.output.bytes)
            && ParsePorts(back.proto, r.output.bytes) == if back.proto.Icmp? then Ports(port, port)
                 else ParsePorts(back.proto, back.payload).(destPort := port))
  {
    hide NatExec, ParsePorts, PortField, Run, Returns, Translated;
    var i := OutgoingSlot(outside, t, out);
    var t1 := NatExec(outside, t, out).tables;
    RunExtends(outside, t1, calls, out.proto);
    var t' := Run(outside, t1, calls);
    assert t'.Get(out.proto)[i] == t1.Get(out.proto)[i];
    AnswerFindsSlot(outside, t', i, back);
  }

  /** An incoming segment for the global port of an occupied slot is well formed and is
      translated to the endpoint that owns the slot. */
  lemma AnswerFindsSlot(outside: u32, t: Tables, i: nat, c: Call)
    requires Valid(t) && c.dir.Incoming? && i < |t.Get(c.proto)| <= Capacity(c.proto)
    requires ParsePorts(c.proto, c.payload).Ports?
    requires c.dst == outside && ParsePorts(c.proto, c.payload).destPort == GlobalPort(c.proto, i)
    ensures var r, e := NatExec(outside, t, c), t.Get(c.proto)[i];
      && r.tables == t && r.src == c.src && r.dst == e.ip
      && WellFormed(c.proto, c.payload) && (r.output.Panic? <==> OddSum(c)) && !r.output.Error?
      && (r.output.Packet? ==>
            && Translated(c.proto, Incoming, c.payload, e.port, c.src, e.ip, r.output.bytes)
            && WellFormed(c.proto, r.output.bytes)
            && ParsePorts(c.proto, r.output.bytes) == if c.proto.Icmp? then Ports(e.port, e.port)
                 else ParsePorts(c.proto, c.payload).(destPort := e.port))
  {
    hide Rewrite, Translated;
    var l, e := t.Get(c.proto), t.Get(c.proto)[i];
    assert SlotOfGlobal(outside, l, c.proto, outside, GlobalPort(c.proto, i)) == i;
    RewriteOutcome(c.proto, Incoming, c.payload, e.port, c.src, e.ip);
    if Rewrite(c.proto, Incoming, c.payload, e.port, c.src, e.ip).Packet? {
      RewriteTranslates(c.proto, Incoming, c.payload, e.port, c.src, e.ip);
      RewrittenPorts(c.proto, Incoming, c.payload, e.port, c.src, e.ip);
    }
  }
}
