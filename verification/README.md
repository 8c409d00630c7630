# Verified model of the software router

A Dafny 4.11 model of a small IPv4 software router written in Go: NAT with its three slot
tables, the routing trie, the Internet checksum in its two implementations, the TCP, UDP, ICMP
and ARP formats, the packet buffer, and the forwarding step that ties them together.
`dafny verify dfyconfig.toml` checks everything.

Code that changes state is modelled by classes and methods with loops (`RadixTreeNode`,
`NatEntryList`, `NatExec`, `IpHeader`, `ArpTable`, `PacketBuffer`, `Router`). Each is proved equal to a
function on values, and the results over all inputs and all runs are lemmas about those functions.

| file | models |
|---|---|
| `Bytes.dfy`, `Checksum.dfy` | integers and their bytes; both checksum implementations and the arithmetic modulo 65535 behind them |
| `Headers.dfy`, `IpHeaders.dfy` | TCP, UDP, ICMP, ARP and IPv4 formats and their round trips |
| `PacketPool.dfy` | the bounded double-ended packet buffer |
| `RadixTree.dfy` | the routing trie on the heap; longest-prefix match over any history of adds |
| `Nat.dfy`, `NatRuns.dfy`, `NatTable.dfy` | `natExec` on one packet; whole runs of it; the arrays of entries |
| `Arp.dfy` | the ARP table |
| `Boot.dfy` | the routes of set-up, and what every lookup finds among them |
| `Forwarding.dfy`, `Router.dfy` | `ipInput` as a function of the router's state; the router in memory |
| `Sessions.dfy` | runs of a router: NAT tables as the history of the traffic, answers finding their way back |
| `Network.dfy` | hop bound of a packet; termination of any network of routers |

Conventions. A Go panic is a value (`Panic`, `Panicked`, `None` or `ok == false`) instead of a
precondition that forbids it. Nothing in the program recovers, so a panic ends the process and with
it every table: runs (`NatRuns.Returns`, `Sessions.Survives`) go on only while no step panics, and
`NatRuns.OutcomeExactly`, `Forwarding.CrashesExactly` and `Sessions.SurvivesExactly` say exactly when
that is. Pointers to devices are positions in the device list. Transmission appends to a ghost log of
frames.

The main results:

- **A session survives all traffic that does not end the program** (`Sessions.AnswerReachesOrigin`).
  A NAT device sends a packet on; the router then handles any packets that do not make it panic; an
  answer to the translated source then goes out through that device to the original address and
  port exactly when TTL, route and ARP table allow it and its checksum loop does not panic, with
  nothing in header or segment changed but TTL, destination and checksums. When only the ARP table
  stands in the way, the local host is asked for.
- **Which packets end the program** (`Forwarding.CrashesExactly`): an exact condition on the packet,
  the addresses and the NAT tables, for every router whose connected routes have devices; set-up
  establishes that (`SoftwareRouter.Router.SetUp`) and every packet keeps it (`Sessions.InputKeeps`).
- **Every network stops** (`Network.NetworkRunBounded`, `Network.HopBound`). For any topology, any
  route tables (loops included), any delivery order and any bound on the receivers of one frame,
  counting echo replies, the number of deliveries is bounded by the TTLs in flight; any packet at all
  is passed on at most TTL - 1 times.
- **Every packet, every case** (`Forwarding.TransitExactly`, `Forwarding.ReturnExactly`,
  `Forwarding.EchoExactly`, `Forwarding.IgnoredPackets`, `Forwarding.InputLearns`). Which frame a
  received packet causes, to which hardware address, through which device; when it is an ARP request
  instead, and for whom; when it is nothing or a panic; and what is learned: in terms of longest
  match, the ARP table, and the bytes received (`Forwarding.ReceivedFields`).
- **The routes after set-up** (`Boot.BootRoutes`, `SoftwareRouter.Router.SetUp`): for every address,
  the interface with the longest mask that has it on its link, or the static route, or none.
- **The router refines its specification** (`SoftwareRouter.Router.IpInput`, and
  `SoftwareRouter.Router.Receive` for whole runs): heap, loops, in-place writes to the received buffer
  and panics included, for every packet and state.
- **The trie is longest-prefix match** over every history of adds (`RadixTree.SearchIsLongestMatch`
  with the contracts of `RadixTreeAdd` and `RadixTreeSearch`).
- **Port allocation is the history** (`NatRuns.RunIsHistory`, `Sessions.RouterTablesAreHistory`), down
  to the port on the wire (`Sessions.RouterPortIsHistory`).

What the proofs show the code not to do, each with its exact condition:

- `sumByteArr` has a branch for odd lengths, but its loop panics before reaching it
  (`Checksum.SumByteArr`). So NAT panics on an odd-length segment exactly when it is translated and
  its checksum recomputed (`NatRuns.OutcomeExactly`, `Nat.OddLengthExample`), and so does the reply to
  an odd-length ping (`Headers.ReplyEchoes`). The zero-copy implementation is correct on odd lengths.
- `ToPacket` writes 20 bytes whatever the header length, so a forwarded packet has its announced
  length exactly when it carries no options (`Forwarding.PlainForwarding`, `Forwarding.OptionsExample`).
- A NAT device drops the payload of every protocol but UDP, TCP and ICMP
  (`Forwarding.OtherProtocolsLosePayload`).
- A malformed TCP segment is replaced by a 20-byte zero header with the new port
  (`Nat.MalformedTcpReplaced`); a segment keeps its other bytes exactly when it is well formed or has
  that very shape (`Nat.FramedExactly`).
- A call refused with an error can still take a slot: exactly the outgoing UDP packet shorter than a
  header, from a new sender, while a slot is free (`NatRuns.ErrorAllocatesExactly`,
  `NatRuns.ShortUdpAllocates`).
- Checksums are recomputed, not updated, so a segment that arrives corrupted leaves verifying; the
  result is the incremental adjustment exactly when the segment's sum was right on arrival
  (`NatRuns.CorruptionHidden`, `NatRuns.CorruptedExample`).
- The UDP checksum is computed under the length that the IP header delimits. A receiver that goes by
  the UDP length field, as RFC 768 says, accepts the result exactly when the bytes beyond that length
  are neutral in the sum (`Nat.UdpLengthField`, `Nat.ShortLengthExample`).

## Model

| member | source | states |
|---|---|---|
| Checksum.SumByteArr | utils.go:45-55 | the loop returns the sum of the 16-bit words on even lengths and panics exactly on odd ones, never reaching its padding branch |
| Checksum.FoldStep | utils.go:38-40 | one carry fold strictly decreases the sum (termination) and keeps its residue modulo 65535 |
| Checksum.FoldChecksum | utils.go:37-42 | the fold is 0xffff minus the representative of the sum modulo 65535 in 1..65535, and 0xffff for the sum 0 |
| Checksum.CalcChecksum | utils.go:29-35 | the third implementation gives the same checksum, as two bytes |
| Checksum.FoldCompletes | utils.go:37-42 | adding the checksum of a sum to that sum always folds to zero, and so does 0xffff when the checksum is 0 |
| Checksum.WrittenChecksumVerifies | nat.go:246-252 | a checksum computed over a zeroed field and written into it makes the whole verify, on top of any pseudo header, including the 0 to 0xffff replacement (section 1 of RFC 1071; RFC 768) |
| Checksum.VerifyingChecksumUnique | utils.go:37-42 | two checksums that verify for the same data are equal up to the two representations of zero |
| Checksum.IncrementalUpdate | utils.go:37-42 | recomputing equals equation 3, section 3 of RFC 1624 bit for bit, for every changed word, except exactly in the one case where the two representations of zero differ |
| Checksum.WordSumConcat | packetPool.go:83-94 | partial sums add up over concatenation at an even offset |
| Checksum.WordSumPadding | packetPool.go:90-92 | an odd-length sum is the sum of the data padded with one zero byte |
| Checksum.ChecksumPartial | packetPool.go:83-94 | with a uint32 accumulator wrapping at each addition, the result is the exact sum wrapped once, on every length |
| Checksum.FinalizeChecksum | packetPool.go:97-102 | the second finalise step is the same fold |
| Checksum.NoOverflow | packetPool.go:105-119 | pseudo header plus 65535 bytes of data fit in the uint32 accumulator |
| Checksum.ComputeL4ChecksumZeroCopy | packetPool.go:105-119 | on every length up to 65535, odd ones included, the zero-copy checksum is the fold of pseudoHeaderSum plus word sum, as natExec computes it |
| Headers.UdpRoundTrip | Header.go:81-89 | the parser reads each field at its offset (RFC 768), and serialising gives back the eight bytes |
| Headers.UdpParseBytes | Header.go:126-137 | parsing a serialised UDP header, with any data behind it, gives it back |
| Headers.TcpToPacket | Header.go:60-80 | the field-by-field writes produce the TCP layout, options and data |
| Headers.TcpFixedRoundTrip | Header.go:91-124 | the parser reads each field at its offset (section 3.1 of RFC 793), and serialising gives back the first twenty bytes |
| Headers.TcpRoundTrip | Header.go:91-124 | serialising what was parsed gives the segment back exactly when its data offset is 5..15 words within its length, or it is the all-zero header (section 3.1 of RFC 793) |
| Headers.TcpParseBytes | Header.go:60-124 | parsing what was serialised gives the header back exactly when its options fill the stated header length and the reserved bits fit in four, or it is the zero header |
| Headers.ReplyPacket | ICMP.go:45-64 | the reply buffer with its patched checksum bytes is the specified reply; it panics on odd lengths |
| Headers.ReplyEchoes | ICMP.go:45-64 | the reply to a request repeats everything from the identifier on, has type and code 0, and verifies; no reply exactly for odd lengths |
| Headers.ArpParseBytes | arp.go:104-114 | parsing a serialised ARP message, with any padding behind it, gives it back (RFC 826) |
| Headers.ArpRoundTrip | arp.go:51-64 | the parser reads each field at its offset (RFC 826), and serialising gives back the 28 bytes |
| PacketPool.PacketBuffer.Prepend | packetPool.go:62-68 | succeeds exactly while the prepended total stays within 128 bytes, moving only the head |
| PacketPool.PacketBuffer.Append | packetPool.go:71-78 | succeeds exactly while the appended total stays within 1920 bytes, moving only the tail |
| PacketPool.PacketBuffer.Data | packetPool.go:52-54 | the valid bytes are what was prepended followed by what was appended |
| PacketPool.PacketBuffer.Perform | packetPool.go:62-78 | one call with its slice filled in puts the chunk at its end of the content and disturbs nothing else; one that does not fit changes nothing |
| PacketPool.RunContents | packetPool.go:43-78 | over any run, the content is all prepended chunks newest first, then all appended chunks oldest first, exactly when they fit in 128 and 1920 bytes |
| PacketPool.EndsIndependent | packetPool.go:62-78 | over any run, calls at one end have no effect on the other |
| RadixTree.RadixTreeNode.constructor | radix_tree.go:3-10 | the zero node is an empty, well-formed routing table |
| RadixTree.RadixTreeNode.RadixTreeAdd | radix_tree.go:12-41 | the insertion loop keeps the trie well formed (depths, parents, children, one node per prefix) and registers exactly the entry under its masked prefix and length |
| RadixTree.RadixTreeNode.RadixTreeSearch | radix_tree.go:54-78 | the walk that remembers the last data seen returns the entry of the longest registered prefix |
| RadixTree.RadixTreeNode.ParentsReachRoot | radix_tree.go:3-41 | from every node, following parent exactly depth times reaches the root: the trie is acyclic and depths are right |
| RadixTree.SearchIsLongestMatch | radix_tree.go:12-78 | after any sequence of adds, the answer is a covering add in force (last write per masked prefix and length, zero entries withdrawing) that no other such add exceeds in length, and "no route" exactly when none covers (section 5.2.4.3 of RFC 1812) |
| RadixTree.LastLongestAddWins | radix_tree.go:12-78 | of all adds that cover an address, the last one of the greatest length is the answer |
| RadixTree.ZeroEntryWithdraws | radix_tree.go:59-61 | adding the zero entry makes every search answer as if the prefix had never been registered |
| RadixTree.AddsCommute | radix_tree.go:12-41 | adds with different masked prefixes or lengths commute for every search |
| RadixTree.BitsEqual | radix_tree.go:16-38 | two addresses take the same branch of len levels exactly when they agree above the lowest 32 - len bits, so adds ignore the bits below |
| RadixTree.PrefixLenExact | radix_tree.go:43-52 | the leading ones of a contiguous mask are its exact length |
| RadixTree.SubnetToPrefixLen | radix_tree.go:43-52 | the loop counts the leading ones of any mask |
| RadixTree.ConnectedRouteCoversSubnet | Chapter2.go:78-83 | the connected route of a device covers exactly the addresses a with a & mask equal to address & mask |
| Boot.BootRoutes | Chapter2.go:18-89 | after set-up, every address is routed over the interface with the longest mask that has it on its link, the last registered of equals, with a connected route through that very device; 192.168.2.0/24 goes to 192.168.0.2 unless such a mask is at least 24 long; anything else has no route |
| Boot.BootDetermined | Chapter2.go:18-89 | that leaves exactly one answer for every address |
| Boot.OnLinkIsSubnet | Chapter2.go:82-83 | for a contiguous mask of len ones, on its link means a & mask equal to address & mask |
| IpHeaders.IpHeader.ToPacket | ip.go:50-76 | buffer and header field both get the checksum of the zeroed header when asked to calculate, and the stored one otherwise |
| IpHeaders.HeaderRoundTrip | ip.go:91-103 | serialising a parsed header gives back its twenty bytes |
| IpHeaders.HeaderParseBytes | ip.go:53-62 | parsing a serialised header gives it back exactly when version and header length fit in four bits each |
| IpHeaders.StampedVerifies | ip.go:64-72 | every header written with a calculated checksum verifies at the receiver |
| IpHeaders.TtlDecrementIsIncremental | ip.go:175-182 | for a header that arrived valid, the checksum recomputed after the TTL decrement is the incremental update of equation 3, section 3 of RFC 1624, bit for bit |
| Nat.RewriteOutcome | nat.go:225-272 | exactly when rewriting a segment fails: an error only for UDP shorter than its header, a panic only for a well-formed odd-length segment whose checksum is recomputed |
| Nat.RewriteFrames | nat.go:225-272 | a well-formed segment comes out equal except for the one rewritten port or identifier and the checksum field; TCP options and payload survive parse and reserialise |
| Nat.RewriteVerifies | nat.go:225-272 | every segment that comes out verifies over the whole length that the IP header delimits, against the rewritten addresses; a UDP checksum is zero on output exactly when zero on input |
| Nat.ChecksumForm | nat.go:246-270 | of the two representations of zero, TCP never writes 0xffff, and ICMP only for an otherwise zero message |
| Nat.RewrittenPorts | nat.go:193-224 | the next parser reads the rewritten port and every other port unchanged |
| Nat.RecomputedIsAdjusted | nat.go:243-270 | the recomputed checksum is the incremental adjustment (section 4.2 of RFC 3022) of the one that came in, up to the two representations of zero, exactly when that one's sum was a multiple of 65535 |
| Nat.RewrittenPortField | nat.go:193-224 | every segment that comes out, malformed TCP included, carries the new port or identifier |
| Nat.ExecRewrites | nat.go:184-224 | a call rewrites with its slot's port exactly when its lookup finds or gets a slot; otherwise nothing is emitted and tables and addresses stay |
| Nat.BufferExactly | nat.go:263-270 | what the received segment holds afterwards: the returned bytes for translated ICMP, the new identifier and a zero checksum when the sum then panics, and otherwise what it held |
| Nat.UdpLengthField | nat.go:246-247 | a receiver that sums by the UDP length field (RFC 768) accepts a checksummed datagram that leaves exactly when the bytes beyond that length are neutral in the sum; they are when the lengths agree |
| Nat.ShortLengthExample | nat.go:246-247 | ten concrete bytes under a length field of eight, which no such receiver accepts after translation, whatever addresses, port and direction |
| Nat.RewriteLength | Header.go:112-115 | a segment that comes out has the length of the one that went in exactly when that was well formed (or twenty bytes long) |
| Nat.MalformedTcpReplaced | Header.go:91-115 | a malformed TCP segment is replaced by twenty bytes: a zero header with the new port and a checksum |
| Nat.FramedExactly | nat.go:225-272 | the bytes outside port and checksum field are kept exactly for the well-formed segments and the twenty bytes that are zero there |
| Nat.OddLengthExample | utils.go:46-48 | a concrete nine-byte UDP segment on which natExec panics, on any tables that have or can give its sender a slot |
| NatRuns.StepTables | nat.go:184-224 | a call changes only its own protocol's table, only when outgoing, and only by admitting its endpoint behind the others |
| NatRuns.FullExactly | nat.go:204-213 | a table is reported full exactly when the endpoint owns no slot and every slot is owned; nothing changes then |
| NatRuns.OutcomeExactly | nat.go:153-273 | the exact condition of every outcome in terms of the call and the tables: each of the four errors, a panic, and a translated segment (only echo messages pass for ICMP, RFC 5508) |
| NatRuns.ErrorAllocatesExactly | nat.go:204-236 | a call refused with an error changes the tables exactly when it is outgoing UDP shorter than a header from a new sender and a slot is free; it then appends local port 0 |
| NatRuns.ShortUdpAllocates | nat.go:204-236 | every such packet is refused, after it has been given the slot |
| NatRuns.CorruptionHidden | nat.go:246-252 | a translated segment verifies on output whatever it did on input; its checksum is the one that came in adjusted for the changed addresses and port exactly when its sum was a multiple of 65535 on input |
| NatRuns.CorruptedExample | nat.go:246-252 | a concrete UDP datagram with a wrong checksum that leaves with a right one |
| NatRuns.TranslatedSegment | nat.go:153-273 | what natExec returns carries the slot's port, verifies between the addresses left in the IP header, keeps every other byte when well formed, and is UDP without checksum exactly when it was |
| NatRuns.RunExtends | nat.go:68-102 | over any run that does not panic, errors included, no slot is moved or freed |
| NatRuns.RunIsHistory | nat.go:68-102 | after any run that does not panic, slot n belongs to the n-th distinct local endpoint that reached the lookup, up to the capacity (40000; 65535 for ICMP) |
| NatRuns.MappingIsByHistory | nat.go:202-224 | the n-th distinct endpoint leaves with the outside address and global port 20000 + n (ICMP: n) for ever, whatever the remote endpoint and the segment, malformed TCP included (section 4.1 of RFC 4787; section 3.1 of RFC 5508), and finds the table full exactly when n is beyond the capacity (40000; ICMP: 65535) |
| NatRuns.MappingInjective | nat.go:68-102 | over any run, two outgoing segments share a global port exactly when they come from the same local endpoint |
| NatRuns.RoundTrip | nat.go:104-224 | once a segment has left translated, then after any further calls that return, a segment to its translated source is rewritten to the original address and port with every other byte kept, panics exactly on an odd sum, and is never refused (section 4.1 of RFC 3022) |
| NatTable.NatEntryList.constructor | nat.go:54-61 | the three tables start with every slot free |
| NatTable.NatEntryList.CreateNatEntry | nat.go:68-102 | the scan fills the first free slot, right behind the occupied ones, with a fresh entry for that slot's global port; null exactly when full |
| NatTable.NatEntryList.GetNatEntryByGlobal | nat.go:104-126 | the linear scan equals a direct index by port for the outside address, and finds nothing otherwise |
| NatTable.NatEntryList.GetNatEntryByLocal | nat.go:128-151 | the scan finds the one slot the endpoint owns |
| NatTable.NatEntryList.FindOrCreate | nat.go:204-213 | lookup and allocation keep every table a dense prefix of distinct endpoints with slot-numbered ports and the outside address |
| NatTable.SerialiseIcmp | nat.go:263-270 | identifier and checksum are patched in the received bytes, and nothing around the segment changes |
| NatTable.NatExec | nat.go:153-273 | tables, header addresses, result and received bytes are those of the specification, for every input including those that return errors or panic; only ICMP that is translated is written in place |
| Arp.ArpTable.AddArpTableEntry | arp.go:22-37 | overwrites or appends, keeping one entry per address: a map update |
| Arp.ArpTable.SearchArpTableEntry | arp.go:86-95 | the scan is a map lookup |
| Forwarding.TransmitFrame | ip.go:169-230 | a packet in transit leaves as an IP frame exactly when TTL, longest-match route and a resolved next hop allow it, and then to that neighbour's hardware address through the route's device, or the device where the next router was learned |
| Forwarding.ReceivedFields | ip.go:86-116 | which packets are accepted, where their payload is, and every header field and protocol number, in terms of the bytes received (section 3.1 of RFC 791) |
| Forwarding.IgnoredPackets | ip.go:81-115 | packets on a device without address or with inconsistent lengths change and emit nothing |
| Forwarding.InputLearns | ip.go:117-121 | any other packet makes its source resolve to the sender's hardware address and device unless one is known; the rest of the ARP table and the routes stay |
| Forwarding.OutputAlongHands | ip.go:199-230 | output along the longest match, every case: an IP frame to the next hop through its device, an ARP request for the host or for the next router, silence, or a nil-device panic |
| Forwarding.TransitExactly | ip.go:141-197 | every case of a packet in transit: failed translation and TTL end it; otherwise frame, ARP request or silence, through the device of the longest match |
| Forwarding.ReturnExactly | ip.go:232-271 | every case of a packet for a NAT's outside address: failed translation and TTL end it; otherwise frame, ARP request or silence towards the local endpoint, through the NAT device itself |
| Forwarding.EchoExactly | ip.go:274-290 | every case of a packet for the router itself that no NAT takes: panic on ICMP below 16 bytes and odd echo requests, an output towards the sender for the other echo requests, silence for all else |
| Forwarding.EchoAnsweredExactly | ICMP.go:66-96 | a ping is answered exactly when it is an echo request of an even length of at least 16 bytes and a next hop to its sender is known, and then to that next hop through its device |
| Forwarding.EncapsulateHands | ip.go:294-330 | a packet the router originates has the header given field by field and a verifying checksum, and is output towards its destination, every case |
| Forwarding.ForwardedExactly | ip.go:141-196 | a packet in transit is sent on exactly when TTL, route and ARP table allow it and, on a NAT device, its translation succeeds |
| Forwarding.CrashesExactly | ip.go:79-330 | a received packet makes the program panic exactly when it is accepted and either some NAT translates it with an odd sum or cannot parse its ICMP, or it is an ICMP message to the router itself that is too short or an odd-length ping |
| Forwarding.PlainForwarding | ip.go:79-197 | without NAT, the frame goes to the next hop of the longest match through its device, and carries the same header with TTL one less and a verifying checksum, then the same payload; it has its announced length exactly when there are no options |
| Forwarding.PlainForwardingChecksum | ip.go:175-182 | on the wire, the checksum sent on is the RFC 1624 update of the one received |
| Forwarding.NatForwarding | ip.go:141-197 | through NAT, the frame goes to the same next hop and device, the source is the outside address, and the segment carries the port of its sender's slot, verifies against the emitted addresses and keeps every other byte |
| Forwarding.EchoAnswered | ICMP.go:66-96 | the answer to a ping: exchanged addresses, every header field, verifying header and the verifying echo of the request |
| Forwarding.OptionsExample | ip.go:50-76 | a concrete router that, given a packet with one word of options, sends 20 of the 24 bytes the header still announces |
| Forwarding.OtherProtocolsLosePayload | ip.go:142-187 | a NAT device sends other protocols on with an empty payload, so the payload survives exactly when it was empty |
| SoftwareRouter.Router.SetUp | Chapter2.go:18-89 | afterwards every lookup finds what BootRoutes says, every connected route has a device, and the devices are the interfaces with their addresses and no NAT |
| SoftwareRouter.Router.ConfigureIPNat | nat.go:50-65 | every device of that name gets the outside address and three empty tables of its own, and nothing else changes |
| SoftwareRouter.Router.NatExecOn | ip.go:144-165 | natExec on one device changes that device's tables and the received bytes as specified, and no other part of the router |
| SoftwareRouter.Router.IpPacketOutputToHost | ip.go:218-230 | the IP frame to the host's hardware address when the ARP table has one, otherwise the ARP request for it, through the given device; a nil device panics |
| SoftwareRouter.Router.IpPacketOutputToNexthop | ip.go:199-216 | one IP frame, one ARP request, or nothing, as specified |
| SoftwareRouter.Router.IpPacketEncapsulateOutput | ip.go:294-330 | sends and panics as EncapsulateHands characterises |
| SoftwareRouter.Router.IpInputToOurs | ip.go:232-292 | the device scan picks the first NAT with that outside address for its three protocols and falls through to the upper layer otherwise; what then leaves is characterised by ReturnExactly and EchoExactly |
| SoftwareRouter.Router.IpInput | ip.go:79-197 | for every packet, device and state, the new state, the frames (at most one), the received buffer and a panic are those of the specification |
| SoftwareRouter.Router.Receive | net.go:42-59 | a run of received packets returns exactly when the router survives it, and leaves the state and the log that the Sessions results speak of |
| Sessions.InputKeeps | ip.go:79-292 | whatever a packet does, no NAT slot of any device is moved or freed, and no address or route changes |
| Sessions.SurvivesExactly | ip.go:79-330 | a router survives exactly the runs in which no packet meets the condition of CrashesExactly in the state it finds |
| Sessions.InputsAreNatRun | ip.go:141-167 | every run a router survives is, for each of its NAT devices, a run of natExec calls that return, on the packets in transit from that device |
| Sessions.RouterTablesAreHistory | ip.go:141-167 | after any run a router survives, a device's tables are the first distinct endpoints its packets brought |
| Sessions.RouterPortIsHistory | ip.go:141-197 | the n-th distinct endpoint of a running router leaves on the wire with global port 20000 + n (ICMP: identifier n) |
| Sessions.AnswerReachesOrigin | ip.go:232-292 | an answer to a translated source, after any other traffic that the router survives, goes out exactly when TTL, route and next hop allow it and its sum is not odd, to the original address and port, its own source and every other byte kept, with verifying checksums, through the NAT device to that next hop; an unresolved local host is asked for through that device; on an odd sum it panics |
| Network.EmittedFrame | ip.go:79-330 | an emitted IP frame is the received packet passed on with TTL at least 2, or the echo reply to it |
| Network.PassedPotential | ip.go:175-182 | a packet passed on has TTL exactly one less, and can cause strictly fewer frames than the one received |
| Network.PotentialDecreases | ip.go:79-330 | every IP frame a router emits can cause strictly fewer frames than the packet it received |
| Network.NetworkRunBounded | ip.go:79-330 | any run of any network of such routers, echo replies and frames with several receivers included, ends within a bound given by the TTLs in flight and the receivers per frame (section 5.3.1 of RFC 1812) |
| Network.PacketRunBounded | ip.go:175-182 | with one receiver per frame, a packet no router answers is delivered at most max(t - 1, 0) times after the first, and any other at most 64 times more |
| Network.PassingCostsTtl | ip.go:175-182 | on the transit and the NAT-return path alike, passing any packet on takes exactly one off its TTL, which was at least 2 |
| Network.HopBound | ip.go:175-182 | any packet with TTL t, echo requests and packets with options included, is passed on at most max(t - 1, 0) times along any chain of routers in any states |

## Left out

- Sockets, epoll, interface enumeration, frame reception and `main`: foreign calls; received packets are arguments, sent frames a log. A send that fails ends the program; in the model every send succeeds.
- Ethernet header bytes and the MAC filter of `ethernetInput`: easy; a frame in the log is device, destination address and IP packet, or the ARP request's target.
- The ARP message exchange (`arpInput`, replies): only the table, the message format and the emission of requests are modelled, so a run of a router is of the IP packets it receives.
- ARP frames in the network runs: deliveries are of IP packets; ARP requests leave the log and cause no IP frame.
- `getIPdevice`: string parsing in the Go library; address, mask and broadcast address are inputs.
- `sync.Pool`: its behaviour is not visible; a pooled buffer is a reset one with arbitrary old bytes.
- Printing and error texts: errors are constructors.
- Device structs as heap objects: a device is a value in the router's list and a device pointer its position there, so aliasing of device structs is not captured.
- `ipPacketOutput` passes the root node by value: the copy shares its children, so the model searches the original.
- Concurrency: the program is single-threaded.
- Overflow of the 64-bit `uint` accumulator in `sumByteArr`: `Checksum.WordSumBound` keeps it out of reach of any packet.
- Checksum.ComputeL4ChecksumZeroCopy: nothing is stated beyond 65535 bytes, which the 16-bit length field cannot express.
- PacketPool.PacketBuffer.Prepend: negative sizes, on which the slice expression panics, are excluded.
- RadixTree.RadixTreeNode.RadixTreeAdd: prefix lengths above 32, on which the shift panics, are excluded.
