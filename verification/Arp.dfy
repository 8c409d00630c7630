/** The ARP table (arp.go): a list with at most one entry per IP address, refining a map. */
module Arp {
  import opened Bytes
  import opened Headers

  /** arp.go: arpTableEntry; the device is its position in the device list. */
  datatype ArpEntry = ArpEntry(macAddr: Mac, ipAddr: u32, netdev: nat)

  /** What an address resolves to. */
  datatype Neighbour = Neighbour(mac: Mac, netdev: nat)

  const NO_MAC: Mac := [0, 0, 0, 0, 0, 0]

  type ArpView = map<u32, Neighbour>

  ghost predicate NoDuplicates(list: seq<ArpEntry>) {
    forall i, j :: 0 <= i < j < |list| ==> list[i].ipAddr != list[j].ipAddr
  }

  function View(list: seq<ArpEntry>): ArpView {
    if list == [] then map[]
    else
      var e := list[|list| - 1];
      View(list[..|list| - 1])[e.ipAddr := Neighbour(e.macAddr, e.netdev)]
  }

  /** In a list without duplicates, every entry is what the map says. */
  lemma {:induction false} ViewLookup(list: seq<ArpEntry>)
    requires NoDuplicates(list)
    ensures forall i :: 0 <= i < |list| ==>
      list[i].ipAddr in View(list)
      && View(list)[list[i].ipAddr] == Neighbour(list[i].macAddr, list[i].netdev)
    ensures forall ip :: ip in View(list) ==> exists i :: 0 <= i < |list| && list[i].ipAddr == ip
  {
    if list != [] {
      var front := list[..|list| - 1];
      ViewLookup(front);
      forall ip | ip in View(list)
        ensures exists i :: 0 <= i < |list| && list[i].ipAddr == ip
      {
        if ip != list[|list| - 1].ipAddr {
          assert ip in View(front);
          var i :| 0 <= i < |front| && front[i].ipAddr == ip;
          assert list[i].ipAddr == ip;
        } else {
          assert list[|list| - 1].ipAddr == ip;
        }
      }
    }
  }

  lemma {:induction false} ViewOverwrite(list: seq<ArpEntry>, i: nat, e: ArpEntry)
    requires NoDuplicates(list) && i < |list| && list[i].ipAddr == e.ipAddr
    ensures View(list[i := e]) == View(list)[e.ipAddr := Neighbour(e.macAddr, e.netdev)]
  {
    var n := |list| - 1;
    var front := list[..n];
    if i < n {
      ViewOverwrite(front, i, e);
      assert list[i := e][..n] == front[i := e];
    } else {
      assert list[i := e][..n] == front;
    }
  }

  /** The global ArpTableEntryList. */
  class ArpTable {
    var list: seq<ArpEntry>

    ghost predicate Valid()
      reads this
    {
      NoDuplicates(list)
    }

    constructor ()
      ensures Valid() && View(list) == map[]
    {
      list := [];
    }

    /** arp.go: addArpTableEntry overwrites the entry of the address or appends one. */
    method AddArpTableEntry(netdev: nat, ipaddr: u32, macaddr: Mac)
      requires Valid()
      modifies this
      ensures Valid()
      ensures View(list) == old(View(list))[ipaddr := Neighbour(macaddr, netdev)]
    {
      for i := 0 to |list|
        invariant list == old(list)
        invariant forall j :: 0 <= j < i ==> list[j].ipAddr != ipaddr
      {
        if list[i].ipAddr == ipaddr {
          var e := list[i].(macAddr := macaddr, netdev := netdev);
          ViewOverwrite(list, i, e);
          list := list[i := e];
          return;
        }
      }
      list := list + [ArpEntry(macaddr, ipaddr, netdev)];
      assert list[..|list| - 1] == old(list);
    }

    /** arp.go: searchArpTableEntry; the zero address and no device when nothing is known. */
    method SearchArpTableEntry(ipaddr: u32) returns (mac: Mac, netdev: Option<nat>)
      requires Valid()
      ensures if ipaddr in View(list)
        then mac == View(list)[ipaddr].mac && netdev == Some(View(list)[ipaddr].netdev)
        else mac == NO_MAC && netdev == None
    {
      ViewLookup(list);
      for i := 0 to |list|
        invariant forall j :: 0 <= j < i ==> list[j].ipAddr != ipaddr
      {
        if list[i].ipAddr == ipaddr {
          return list[i].macAddr, Some(list[i].netdev);
        }
      }
      return NO_MAC, None;
    }
  }
}
