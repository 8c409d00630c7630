/** Set-up (Chapter2.go): the routes that are registered before the first packet, and what a
    lookup finds among them. */
module Boot {
  import opened Bytes
  import opened RadixTree
  import opened Forwarding
  import opened NatTable

  /** net.go, ip.go: the part of netDevice and its ipDevice that forwarding uses. */
  datatype NetDevice = NetDevice(
    name: string, address: u32, netmask: u32, broadcast: u32, natdev: Option<NatDevice>)

  // 192.168.2.0/24 through 192.168.0.2, as the set-up registers it
  const STATIC_PREFIX: u32 := 0xc0a8_0200
  const STATIC_ROUTE := RouteEntry(Network, None, 0xc0a8_0002)

  /** The connected route of the i-th device. */
  function ConnectedRoute(d: NetDevice, i: nat): RouteAdd {
    RouteAdd(And(d.address, d.netmask), LeadingOnes(d.netmask, 0), RouteEntry(Connected, Some(i), 0))
  }

  /** The adds that set-up performs, in order. */
  function BootAdds(devices: seq<NetDevice>): (adds: seq<RouteAdd>)
    ensures |adds| == 1 + |devices| && WellFormed(adds)
  {
    [RouteAdd(STATIC_PREFIX, 24, STATIC_ROUTE)]
    + seq(|devices|, i requires 0 <= i < |devices| => ConnectedRoute(devices[i], i))
  }

  /** Set-up gives every connected route a device, so it can never be nil on output. */
  lemma {:induction false} BootDevicesRouted(devices: seq<NetDevice>)
    ensures DevicesRouted(Replay(BootAdds(devices)))
  {
    if devices == [] {
      ReplayBootStart();
    } else {
      var n := |devices| - 1;
      assert devices == devices[..n] + [devices[n]];
      BootDevicesRouted(devices[..n]);
      ReplayBootStep(devices[..n], devices[n]);
    }
  }

  lemma ReplayBootStart()
    ensures Replay(BootAdds([])) == map[Bits(STATIC_PREFIX, 24) := STATIC_ROUTE]
  {
    assert BootAdds([])[..0] == [];
  }

  lemma ReplayBootStep(devices: seq<NetDevice>, d: NetDevice)
    ensures var add := ConnectedRoute(d, |devices|);
      Replay(BootAdds(devices + [d])) == Replay(BootAdds(devices))[Bits(add.prefix, add.len) := add.entry]
  {
    var adds := BootAdds(devices + [d]);
    assert adds[..|adds| - 1] == BootAdds(devices);
  }

  // ---------- What the routes of set-up mean ----------

  /** The number of leading ones of the interface's mask. */
  function MaskLen(d: NetDevice): nat {
    LeadingOnes(d.netmask, 0)
  }

  /** An address on the link of an interface: it agrees with the interface's own address in as
      many top bits as the mask has leading ones. */
  predicate OnLink(d: NetDevice, a: u32) {
    Shr(a, 32 - MaskLen(d)) == Shr(d.address, 32 - MaskLen(d))
  }

  /** For a netmask of len ones and zeros behind them, that is the interface's subnet. */
  lemma OnLinkIsSubnet(d: NetDevice, len: nat, a: u32)
    requires Contiguous(d.netmask, len)
    ensures MaskLen(d) == len
    ensures OnLink(d, a) <==> And(a, d.netmask) == And(d.address, d.netmask)
  {
    hide LeadingOnes, Shr, And, Contiguous;
    PrefixLenExact(d.netmask, len);
    MaskedPrefix(d);
    ConnectedRouteCoversSubnet(d.address, d.netmask, len, a);
  }

  /** Masking keeps the bits of the prefix. */
  lemma MaskedPrefix(d: NetDevice)
    ensures Shr(And(d.address, d.netmask), 32 - MaskLen(d)) == Shr(d.address, 32 - MaskLen(d))
  {
    var len, masked := MaskLen(d), And(d.address, d.netmask);
    forall i | 0 <= i < len
      ensures Bits(masked, len)[i] == Bits(d.address, len)[i]
    {
      BitAnd(d.address, d.netmask, i + 1);
    }
    assert Bits(masked, len) == Bits(d.address, len);
    BitsEqual(masked, d.address, len);
  }

  /** Interface i has the longest mask of those with the address on their link, and is the last
      registered of those. */
  ghost predicate Nearest(interfaces: seq<NetDevice>, a: u32, i: nat) {
    && i < |interfaces| && OnLink(interfaces[i], a)
    && forall k :: 0 <= k < |interfaces| && OnLink(interfaces[k], a) ==>
         MaskLen(interfaces[k]) < MaskLen(interfaces[i])
         || (MaskLen(interfaces[k]) == MaskLen(interfaces[i]) && k <= i)
  }

  /** What a lookup is to find after set-up: the nearest interface itself, unless the address is
      in 192.168.2.0/24 and that is longer; then 192.168.0.2; and without either, nothing. */
  ghost predicate RoutedAtBoot(interfaces: seq<NetDevice>, a: u32, e: RouteEntry) {
    var remote := a / 0x100 == 0xc0_a802;
    && (forall i: nat :: Nearest(interfaces, a, i) && (remote ==> MaskLen(interfaces[i]) >= 24) ==>
          e == RouteEntry(Connected, Some(i), 0))
    && (remote && (forall i :: 0 <= i < |interfaces| && OnLink(interfaces[i], a) ==> MaskLen(interfaces[i]) < 24) ==>
          e == RouteEntry(Network, None, 0xc0a8_0002))
    && (!remote && (forall i :: 0 <= i < |interfaces| ==> !OnLink(interfaces[i], a)) ==> e == NO_ROUTE)
  }

  /** Whenever the address is on some link, there is a nearest interface. */
  lemma {:induction false} NearestExists(interfaces: seq<NetDevice>, a: u32)
    requires exists i :: 0 <= i < |interfaces| && OnLink(interfaces[i], a)
    ensures exists i: nat :: Nearest(interfaces, a, i)
  {
    hide OnLink, MaskLen;
    var n := |interfaces| - 1;
    var front, last := interfaces[..n], interfaces[n];
    if exists i :: 0 <= i < n && OnLink(front[i], a) {
      NearestExists(front, a);
      var i: nat :| Nearest(front, a, i);
      assert OnLink(interfaces[i], a);
      if OnLink(last, a) && MaskLen(last) >= MaskLen(interfaces[i]) {
        assert Nearest(interfaces, a, n);
      } else {
        assert Nearest(interfaces, a, i);
      }
    } else {
      assert forall k :: 0 <= k < n ==> interfaces[k] == front[k];
      assert Nearest(interfaces, a, n);
    }
  }

  /** So there is one answer for every address. */
  lemma BootDetermined(interfaces: seq<NetDevice>, a: u32, e: RouteEntry, e': RouteEntry)
    requires RoutedAtBoot(interfaces, a, e) && RoutedAtBoot(interfaces, a, e')
    ensures e == e'
  {
    hide OnLink, MaskLen;
    if exists i :: 0 <= i < |interfaces| && OnLink(interfaces[i], a) {
      NearestExists(interfaces, a);
      var i: nat :| Nearest(interfaces, a, i);
    }
  }

  lemma StaticCovers(a: u32)
    ensures Covers(STATIC_PREFIX, 24, a) <==> a / 0x100 == 0xc0_a802
  {
    ShrByte(a);
    ShrByte(STATIC_PREFIX);
  }

  lemma ShrByte(x: nat)
    ensures Shr(x, 8) == x / 0x100
  {
    assert Shr(x, 1) == x / 2;
    assert Shr(x, 2) == x / 4;
    assert Shr(x, 3) == x / 8;
    assert Shr(x, 4) == x / 0x10;
    assert Shr(x, 5) == x / 0x20;
    assert Shr(x, 6) == x / 0x40;
    assert Shr(x, 7) == x / 0x80;
  }

  /** The add of interface i covers exactly its link. */
  lemma LinkCovers(interfaces: seq<NetDevice>, i: nat, a: u32)
    requires i < |interfaces|
    ensures var add := BootAdds(interfaces)[i + 1];
      && add.len == MaskLen(interfaces[i]) && add.entry == RouteEntry(Connected, Some(i), 0)
      && (Covers(add.prefix, add.len, a) <==> OnLink(interfaces[i], a))
  {
    hide LeadingOnes, Shr, And;
    MaskedPrefix(interfaces[i]);
  }

  /** After set-up every lookup finds that. */
  lemma BootRoutes(interfaces: seq<NetDevice>, a: u32)
    ensures RoutedAtBoot(interfaces, a, Search(Replay(BootAdds(interfaces)), a))
  {
    hide Search, Replay, OnLink, MaskLen, Covers, LeadingOnes;
    var adds := BootAdds(interfaces);
    var e, remote := Search(Replay(adds), a), a / 0x100 == 0xc0_a802;
    StaticCovers(a);
    forall k | 1 <= k < |adds|
      ensures adds[k].len == MaskLen(interfaces[k - 1])
      ensures adds[k].entry == RouteEntry(Connected, Some(k - 1), 0)
      ensures Covers(adds[k].prefix, adds[k].len, a) <==> OnLink(interfaces[k - 1], a)
    {
      LinkCovers(interfaces, k - 1, a);
    }
    forall i: nat | Nearest(interfaces, a, i) && (remote ==> MaskLen(interfaces[i]) >= 24)
      ensures e == RouteEntry(Connected, Some(i), 0)
    {
      LastLongestAddWins(adds, a, i + 1);
    }
    if remote && forall i :: 0 <= i < |interfaces| && OnLink(interfaces[i], a) ==> MaskLen(interfaces[i]) < 24 {
      LastLongestAddWins(adds, a, 0);
    }
    SearchIsLongestMatch(adds, a);
  }
}
