/** The routing table: a binary trie with one address bit per level (radix_tree.go),
    refining longest-prefix match over the routes registered so far. */
module RadixTree {
  import opened Bytes

  datatype RouteType = Connected | Network

  /** ip.go: ipRouteEntry. A device pointer is the position of the device in the device list. */
  datatype RouteEntry = RouteEntry(iptype: RouteType, netdev: Option<nat>, nexthop: u32)

  /** The zero value, which the search treats as "no route". */
  const NO_ROUTE := RouteEntry(Connected, None, 0)

  // ---------- Bits of an address ----------

  /** x >> k. */
  function Shr(x: nat, k: nat): nat {
    if k == 0 then x else Shr(x, k - 1) / 2
  }

  /** x & y. */
  function And(x: nat, y: nat): (r: nat)
    ensures r <= x
  {
    if x == 0 then 0
    else 2 * And(x / 2, y / 2) + (if x % 2 == 1 && y % 2 == 1 then 1 else 0)
  }

  /** The i-th bit of an address from the top: prefix >> (32 - i) & 1 == 1. */
  predicate Bit(x: u32, i: nat)
    requires 1 <= i <= 32
  {
    Shr(x, 32 - i) % 2 == 1
  }

  type Path = seq<bool>

  /** The branch taken from the root by the top len bits of x. */
  function Bits(x: u32, len: nat): (p: Path)
    requires len <= 32
    ensures |p| == len
  {
    seq(len, i requires 0 <= i < len => Bit(x, i + 1))
  }

  lemma BitsPrefix(x: u32, k: nat, len: nat)
    requires k <= len <= 32
    ensures Bits(x, len)[..k] == Bits(x, k)
    ensures k < len ==> Bits(x, k + 1) == Bits(x, k) + [Bit(x, k + 1)]
  {
  }

  lemma {:induction false} ShrSum(x: nat, j: nat, k: nat)
    ensures Shr(Shr(x, j), k) == Shr(x, j + k)
  {
    if k > 0 {
      ShrSum(x, j, k - 1);
    }
  }

  function Pow2(k: nat): nat {
    if k == 0 then 1 else 2 * Pow2(k - 1)
  }

  lemma {:induction false} ShrZero(x: nat, k: nat)
    requires x < Pow2(k)
    ensures Shr(x, k) == 0
  {
    if k > 0 {
      assert Shr(x, 1) == x / 2;
      ShrSum(x, 1, k - 1);
      ShrZero(x / 2, k - 1);
    }
  }

  lemma AddressesHave32Bits(x: u32)
    ensures Shr(x, 32) == 0
  {
    Pow2Step(0);
    Pow2Step(4);
    Pow2Step(8);
    Pow2Step(12);
    Pow2Step(16);
    Pow2Step(20);
    Pow2Step(24);
    Pow2Step(28);
    ShrZero(x, 32);
  }

  lemma Pow2Step(k: nat)
    ensures Pow2(k + 4) == 16 * Pow2(k)
  {
    assert Pow2(k + 2) == 4 * Pow2(k);
  }

  /** Two addresses share their top len bits exactly when they agree after dropping the rest. */
  lemma {:induction false} BitsEqual(x: u32, y: u32, len: nat)
    requires len <= 32
    ensures Bits(x, len) == Bits(y, len) <==> Shr(x, 32 - len) == Shr(y, 32 - len)
  {
    if len == 0 {
      AddressesHave32Bits(x);
      AddressesHave32Bits(y);
    } else {
      BitsEqual(x, y, len - 1);
      BitsPrefix(x, len - 1, len);
      BitsPrefix(y, len - 1, len);
      var k := 32 - len;
      assert Shr(x, k + 1) == Shr(x, k) / 2 && Shr(y, k + 1) == Shr(y, k) / 2;
      assert Bits(x, len)[len - 1] == Bit(x, len) && Bits(y, len)[len - 1] == Bit(y, len);
      if Bits(x, len) == Bits(y, len) {
        assert Bits(x, len - 1) == Bits(y, len - 1);
        assert Shr(x, k) % 2 == Shr(y, k) % 2;
      }
    }
  }

  // ---------- Specification of the table ----------

  /** What is registered: the last entry written per (masked prefix, length). */
  type Routes = map<Path, RouteEntry>

  /** The entry of the longest registered prefix of ip with at most k bits. */
  function LongestMatch(routes: Routes, ip: u32, k: nat): RouteEntry
    requires k <= 32
  {
    if Bits(ip, k) in routes && routes[Bits(ip, k)] != NO_ROUTE then routes[Bits(ip, k)]
    else if k == 0 then NO_ROUTE
    else LongestMatch(routes, ip, k - 1)
  }

  function Search(routes: Routes, ip: u32): RouteEntry {
    LongestMatch(routes, ip, 32)
  }

  // ---------- The trie ----------

  /** radix_tree.go: radixTreeNode. The ghost field path is the branch leading to a node; the
      ghost maps are used at the root, where they hold all nodes and all routes. */
  class RadixTreeNode {
    var depth: int
    var parent: RadixTreeNode?
    var node0: RadixTreeNode?
    var node1: RadixTreeNode?
    var data: RouteEntry
    var value: int
    ghost var path: Path
    ghost var nodes: map<Path, RadixTreeNode>
    ghost var routes: Routes

    /** The zero radixTreeNode: an empty routing table. */
    constructor ()
      ensures Valid() && fresh(nodes.Values) && routes == map[]
    {
      depth, parent, node0, node1, data, value := 0, null, null, null, NO_ROUTE, 0;
      path, routes := [], map[];
      new;
      nodes := map[[] := this];
    }

    /** A node allocated by radixTreeAdd for a missing branch. */
    constructor Branch(parent: RadixTreeNode, depth: int, ghost path: Path)
      ensures this.parent == parent && this.depth == depth && this.path == path
      ensures node0 == null && node1 == null && data == NO_ROUTE
    {
      this.depth, this.parent, this.path := depth, parent, path;
      node0, node1, data, value := null, null, NO_ROUTE, 0;
      nodes, routes := map[], map[];
    }

    function Child(bit: bool): RadixTreeNode?
      reads this
    {
      if bit then node1 else node0
    }

    method SetChild(bit: bool, n: RadixTreeNode)
      modifies this`node0, this`node1
      ensures Child(bit) == n && Child(!bit) == old(Child(!bit))
    {
      if bit {
        node1 := n;
      } else {
        node0 := n;
      }
    }

    /** The node at path p has the right depth, parent, children and data. */
    ghost predicate Consistent(p: Path)
      requires p in nodes
      reads this, nodes.Values
    {
      var n := nodes[p];
      && n.path == p && n.depth == |p| <= 32
      && (p == [] ==> n == this && n.parent == null)
      && (p != [] ==> var q := p[..|p| - 1];
            q in nodes && n.parent == nodes[q] && nodes[q].Child(p[|p| - 1]) == n)
      && (n.node0 != null ==> p + [false] in nodes && nodes[p + [false]] == n.node0)
      && (n.node1 != null ==> p + [true] in nodes && nodes[p + [true]] == n.node1)
      && n.data == (if p in routes then routes[p] else NO_ROUTE)
    }

    /** This node is the root of a well-formed trie holding exactly the registered routes. */
    ghost predicate Valid()
      reads this, nodes.Values
    {
      && [] in nodes
      && routes.Keys <= nodes.Keys
      && forall p {:trigger Consistent(p)} :: p in nodes ==> Consistent(p)
    }

    lemma {:induction false} PrefixClosed(p: Path, k: nat)
      requires Valid() && p in nodes && k <= |p|
      ensures p[..k] in nodes
      decreases |p|
    {
      assert Consistent(p);
      if k == |p| {
        assert p[..k] == p;
      } else {
        var q := p[..|p| - 1];
        PrefixClosed(q, k);
        assert q[..k] == p[..k];
      }
    }

    /** Every node hangs below all its prefixes by the child pointers of its path. */
    lemma Linked(p: Path, k: nat)
      requires Valid() && p in nodes && k < |p|
      ensures p[..k] in nodes && nodes[p[..k]].Child(p[k]) != null
    {
      PrefixClosed(p, k + 1);
      assert Consistent(p[..k + 1]);
      assert p[..k + 1][..k] == p[..k];
    }

    /** Where the walk along ip finds no child, no longer prefix of ip is registered. */
    lemma {:induction false} NothingDeeper(ip: u32, i: nat, k: nat)
      requires Valid() && i < k <= 32
      requires Bits(ip, i) in nodes && nodes[Bits(ip, i)].Child(Bit(ip, i + 1)) == null
      ensures LongestMatch(routes, ip, k) == LongestMatch(routes, ip, i)
      decreases k
    {
      BitsPrefix(ip, i, k);
      if Bits(ip, k) in nodes {
        Linked(Bits(ip, k), i);
        assert false;
      }
      if k > i + 1 {
        NothingDeeper(ip, i, k - 1);
      }
    }

    /** Allocates the missing branch below the node at path q (radix_tree.go:19-25, 29-35). */
    method AddBranch(current: RadixTreeNode, bit: bool, i: int, ghost q: Path)
      requires Valid() && q in nodes && nodes[q] == current
      requires current.Child(bit) == null && i == |q| + 1 <= 32
      modifies this`nodes, current`node0, current`node1
      ensures Valid() && routes == old(routes)
      ensures q + [bit] !in old(nodes) && q + [bit] in nodes && current.Child(bit) == nodes[q + [bit]]
      ensures fresh(nodes[q + [bit]]) && nodes == old(nodes)[q + [bit] := nodes[q + [bit]]]
    {
      ghost var c := q + [bit];
      assert Consistent(q);
      assert c[..|q|] == q;
      if c in nodes {
        Linked(c, |q|);
        assert false;
      }
      var branch := new RadixTreeNode.Branch(current, i, c);
      current.SetChild(bit, branch);
      nodes := nodes[c := branch];
      forall p | p in nodes
        ensures Consistent(p)
      {
        if p != c {
          assert old(Consistent(p));
          if p != q {
            assert nodes[p].path != current.path;
          }
          if p != [] && p[..|p| - 1] == q {
            assert p == q + [p[|p| - 1]];
          }
        }
      }
    }

    /** radix_tree.go: radixTreeAdd, on the root. */
    method RadixTreeAdd(prefixIpAddr: u32, prefixLen: nat, entryData: RouteEntry)
      requires Valid() && prefixLen <= 32
      modifies this, nodes.Values
      ensures Valid() && fresh(nodes.Values - old(nodes.Values))
      ensures routes == old(routes)[Bits(prefixIpAddr, prefixLen) := entryData]
    {
      var current := this;
      assert Consistent([]);
      assert Bits(prefixIpAddr, 0) == [];
      for i := 1 to prefixLen + 1
        invariant Valid() && routes == old(routes)
        invariant Bits(prefixIpAddr, i - 1) in nodes && current == nodes[Bits(prefixIpAddr, i - 1)]
        invariant forall p :: p in old(nodes) ==> p in nodes && nodes[p] == old(nodes[p])
        invariant forall p :: p in nodes && p !in old(nodes) ==> fresh(nodes[p])
      {
        ghost var q := Bits(prefixIpAddr, i - 1);
        BitsPrefix(prefixIpAddr, i - 1, i);
        var bit := Bit(prefixIpAddr, i);
        if current.Child(bit) == null {
          AddBranch(current, bit, i, q);
        }
        assert Consistent(q);
        current := current.Child(bit);
      }
      SetData(current, entryData, Bits(prefixIpAddr, prefixLen));
    }

    /** Stores the data at the node reached (radix_tree.go:40). */
    method SetData(current: RadixTreeNode, entryData: RouteEntry, ghost q: Path)
      requires Valid() && q in nodes && nodes[q] == current
      modifies this`routes, current`data
      ensures Valid() && routes == old(routes)[q := entryData]
    {
      assert Consistent(q);
      current.data := entryData;
      routes := routes[q := entryData];
      forall p | p in nodes
        ensures Consistent(p)
      {
        assert old(Consistent(p));
        if p != q {
          assert nodes[p].path != current.path;
        }
      }
    }

    /** radix_tree.go: radixTreeSearch, on the root. */
    method RadixTreeSearch(prefixIpAddr: u32) returns (result: RouteEntry)
      requires Valid()
      ensures result == Search(routes, prefixIpAddr)
    {
      var current := this;
      result := NO_ROUTE;
      assert Consistent([]);
      assert Bits(prefixIpAddr, 0) == [];
      for i := 1 to 33
        invariant Bits(prefixIpAddr, i - 1) in nodes && current == nodes[Bits(prefixIpAddr, i - 1)]
        invariant result == if i == 1 then NO_ROUTE else LongestMatch(routes, prefixIpAddr, i - 2)
      {
        ghost var q := Bits(prefixIpAddr, i - 1);
        assert Consistent(q);
        if current.data != NO_ROUTE {
          result := current.data;
        }
        assert result == LongestMatch(routes, prefixIpAddr, i - 1);
        var bit := Bit(prefixIpAddr, i);
        if current.Child(bit) == null {
          NothingDeeper(prefixIpAddr, i - 1, 32);
          return;
        }
        BitsPrefix(prefixIpAddr, i - 1, i);
        current := current.Child(bit);
      }
      assert Consistent(Bits(prefixIpAddr, 32));
      if current.data != NO_ROUTE {
        result := current.data;
      }
    }

    /** Walking up from any node by parent pointers reaches the root after exactly depth
        steps, through strictly decreasing depths: the trie has no cycle. */
    lemma {:induction false} ParentsReachRoot(n: RadixTreeNode)
      requires Valid() && n in nodes.Values
      ensures n.depth >= 0 && Ancestor(n, n.depth) == this
      decreases n.depth
    {
      var p :| p in nodes && nodes[p] == n;
      assert Consistent(p);
      if p != [] {
        assert Consistent(p[..|p| - 1]);
        ParentsReachRoot(n.parent);
      }
    }

    ghost function Ancestor(n: RadixTreeNode, k: int): RadixTreeNode?
      requires Valid() && n in nodes.Values
      reads this, nodes.Values
      decreases k
    {
      if k <= 0 then n
      else if n.parent in nodes.Values then Ancestor(n.parent, k - 1)
      else null
    }
  }

  // ---------- Histories of adds ----------

  datatype RouteAdd = RouteAdd(prefix: u32, len: nat, entry: RouteEntry)

  ghost predicate WellFormed(adds: seq<RouteAdd>) {
    forall j :: 0 <= j < |adds| ==> adds[j].len <= 32
  }

  /** The registered routes after a sequence of radixTreeAdd calls on the empty table. */
  function Replay(adds: seq<RouteAdd>): Routes
    requires WellFormed(adds)
  {
    if adds == [] then map[]
    else
      var last := adds[|adds| - 1];
      Replay(adds[..|adds| - 1])[Bits(last.prefix, last.len) := last.entry]
  }

  /** An address lies under a prefix when they agree above the lowest 32 - len bits. */
  predicate Covers(prefix: u32, len: nat, ip: u32)
    requires len <= 32
  {
    Shr(ip, 32 - len) == Shr(prefix, 32 - len)
  }

  /** The j-th add is in force: no later add has its masked prefix and length, and it does
      not withdraw. */
  ghost predicate Live(adds: seq<RouteAdd>, j: nat)
    requires WellFormed(adds)
  {
    && j < |adds| && adds[j].entry != NO_ROUTE
    && forall k :: j < k < |adds| ==>
         !(adds[k].len == adds[j].len && Covers(adds[j].prefix, adds[j].len, adds[k].prefix))
  }

  /** A map lookup after a history is the last write to that key. */
  lemma {:induction false} ReplayLookup(adds: seq<RouteAdd>, p: Path) returns (j: nat)
    requires WellFormed(adds)
    ensures p in Replay(adds) <==> j < |adds|
    ensures j < |adds| ==>
      && Bits(adds[j].prefix, adds[j].len) == p && Replay(adds)[p] == adds[j].entry
      && forall k :: j < k < |adds| ==> Bits(adds[k].prefix, adds[k].len) != p
    ensures j == |adds| ==> forall k :: 0 <= k < |adds| ==> Bits(adds[k].prefix, adds[k].len) != p
    ensures j <= |adds|
  {
    if adds == [] {
      return 0;
    }
    var n := |adds| - 1;
    if Bits(adds[n].prefix, adds[n].len) == p {
      return n;
    }
    j := ReplayLookup(adds[..n], p);
    if j == n {
      j := n + 1;
    }
  }

  /** Looking up a key finds an entry in force exactly when some live add has that key. */
  lemma LiveIffRegistered(adds: seq<RouteAdd>, j: nat)
    requires WellFormed(adds) && j < |adds|
    ensures Live(adds, j) ==> var p := Bits(adds[j].prefix, adds[j].len);
      p in Replay(adds) && Replay(adds)[p] == adds[j].entry
  {
    if Live(adds, j) {
      var l := ReplayLookup(adds, Bits(adds[j].prefix, adds[j].len));
      if l < |adds| && l > j {
        BitsEqual(adds[l].prefix, adds[j].prefix, adds[j].len);
      }
    }
  }

  /** Section 5.2.4.3 of RFC 1812: the answer is a live add that covers the address and is at
      least as long as every other live covering add; with none, it is "no route". */
  ghost predicate IsLongestMatch(adds: seq<RouteAdd>, ip: u32, e: RouteEntry)
    requires WellFormed(adds)
  {
    if exists j: nat :: Live(adds, j) && Covers(adds[j].prefix, adds[j].len, ip) then
      exists j: nat :: Live(adds, j) && Covers(adds[j].prefix, adds[j].len, ip) && e == adds[j].entry
        && forall k: nat :: Live(adds, k) && Covers(adds[k].prefix, adds[k].len, ip) ==> adds[k].len <= adds[j].len
    else e == NO_ROUTE
  }

  lemma {:induction false} LongestMatchFinds(adds: seq<RouteAdd>, ip: u32, k: nat) returns (j: nat)
    requires WellFormed(adds) && k <= 32
    ensures var e := LongestMatch(Replay(adds), ip, k);
      if e == NO_ROUTE then
        forall l: nat :: Live(adds, l) && Covers(adds[l].prefix, adds[l].len, ip) ==> adds[l].len > k
      else
        && Live(adds, j) && Covers(adds[j].prefix, adds[j].len, ip) && e == adds[j].entry
        && forall l: nat :: Live(adds, l) && Covers(adds[l].prefix, adds[l].len, ip) && adds[l].len <= k
             ==> adds[l].len <= adds[j].len
  {
    var p := Bits(ip, k);
    forall l: nat | Live(adds, l) && Covers(adds[l].prefix, adds[l].len, ip) && adds[l].len == k
      ensures p in Replay(adds) && Replay(adds)[p] != NO_ROUTE
    {
      BitsEqual(ip, adds[l].prefix, k);
      LiveIffRegistered(adds, l);
    }
    if p in Replay(adds) && Replay(adds)[p] != NO_ROUTE {
      j := ReplayLookup(adds, p);
      assert |p| == adds[j].len;
      BitsEqual(ip, adds[j].prefix, k);
      forall m | j < m < |adds| && adds[m].len == adds[j].len
        ensures !Covers(adds[j].prefix, k, adds[m].prefix)
      {
        BitsEqual(adds[m].prefix, adds[j].prefix, k);
      }
    } else if k == 0 {
      j := 0;
    } else {
      j := LongestMatchFinds(adds, ip, k - 1);
    }
  }

  /** After any sequence of adds, the search answers with the longest match. */
  lemma SearchIsLongestMatch(adds: seq<RouteAdd>, ip: u32)
    requires WellFormed(adds)
    ensures IsLongestMatch(adds, ip, Search(Replay(adds), ip))
  {
    var j := LongestMatchFinds(adds, ip, 32);
    assert Search(Replay(adds), ip) != NO_ROUTE ==> Live(adds, j);
  }

  /** The last add of the greatest length that covers an address is the answer. */
  lemma LastLongestAddWins(adds: seq<RouteAdd>, ip: u32, j: nat)
    requires WellFormed(adds) && j < |adds| && adds[j].entry != NO_ROUTE && Covers(adds[j].prefix, adds[j].len, ip)
    requires forall k :: 0 <= k < |adds| && Covers(adds[k].prefix, adds[k].len, ip) ==>
      adds[k].len < adds[j].len || (adds[k].len == adds[j].len && k <= j)
    ensures Search(Replay(adds), ip) == adds[j].entry
  {
    hide Search, Replay, Shr;
    SearchIsLongestMatch(adds, ip);
    assert Live(adds, j);
    var w: nat :| Live(adds, w) && Covers(adds[w].prefix, adds[w].len, ip)
      && Search(Replay(adds), ip) == adds[w].entry
      && forall k: nat :: Live(adds, k) && Covers(adds[k].prefix, adds[k].len, ip) ==> adds[k].len <= adds[w].len;
    assert adds[w].len == adds[j].len && w <= j;
  }

  /** Adds with different (masked prefix, length) keys commute for every search. */
  lemma AddsCommute(adds: seq<RouteAdd>, a: RouteAdd, b: RouteAdd, ip: u32)
    requires WellFormed(adds) && a.len <= 32 && b.len <= 32
    requires !(a.len == b.len && Covers(a.prefix, a.len, b.prefix))
    ensures Search(Replay(adds + [a, b]), ip) == Search(Replay(adds + [b, a]), ip)
  {
    if a.len == b.len {
      BitsEqual(b.prefix, a.prefix, a.len);
    }
    ReplaySnoc2(adds, a, b);
    ReplaySnoc2(adds, b, a);
    assert Bits(a.prefix, a.len) != Bits(b.prefix, b.len);
    assert Replay(adds + [a, b]) == Replay(adds + [b, a]);
  }

  lemma ReplaySnoc2(adds: seq<RouteAdd>, a: RouteAdd, b: RouteAdd)
    requires WellFormed(adds) && a.len <= 32 && b.len <= 32
    ensures Replay(adds + [a, b]) ==
      Replay(adds)[Bits(a.prefix, a.len) := a.entry][Bits(b.prefix, b.len) := b.entry]
  {
    var two := adds + [a, b];
    assert two[..|two| - 1] == adds + [a];
    assert (adds + [a])[..|adds|] == adds;
  }

  /** Adding the zero entry withdraws the prefix: every search then answers as if the
      prefix had never been registered. */
  lemma {:induction false} ZeroEntryWithdraws(routes: Routes, p: Path, ip: u32, k: nat)
    requires k <= 32
    ensures LongestMatch(routes[p := NO_ROUTE], ip, k) == LongestMatch(routes - {p}, ip, k)
  {
    if k > 0 {
      ZeroEntryWithdraws(routes, p, ip, k - 1);
    }
  }

  // ---------- Connected routes ----------

  /** A netmask: len ones followed by zeros. */
  ghost predicate Contiguous(mask: u32, len: nat) {
    len <= 32 && forall i :: 1 <= i <= 32 ==> (Bit(mask, i) <==> i <= len)
  }

  /** The number of leading ones of a mask, from the i-th bit on. */
  function LeadingOnes(mask: u32, i: nat): (len: nat)
    requires i <= 32
    ensures i <= len <= 32
    ensures forall j :: i < j <= len ==> Bit(mask, j)
    ensures len < 32 ==> !Bit(mask, len + 1)
    decreases 32 - i
  {
    if i == 32 || !Bit(mask, i + 1) then i else LeadingOnes(mask, i + 1)
  }

  /** radix_tree.go: subnetToPrefixLen counts the leading ones. */
  method SubnetToPrefixLen(subnet: u32) returns (length: nat)
    ensures length == LeadingOnes(subnet, 0)
  {
    length := 0;
    for i := 0 to 32
      invariant length == i && LeadingOnes(subnet, i) == LeadingOnes(subnet, 0)
    {
      if !Bit(subnet, i + 1) {
        break;
      }
      length := length + 1;
    }
  }

  /** On a contiguous mask that is its exact length. */
  lemma PrefixLenExact(mask: u32, len: nat)
    requires Contiguous(mask, len)
    ensures LeadingOnes(mask, 0) == len
  {
    var l := LeadingOnes(mask, 0);
    assert l < 32 ==> (Bit(mask, l + 1) <==> l + 1 <= len);
    assert len < 32 ==> (Bit(mask, len + 1) <==> len + 1 <= len);
  }

  lemma {:induction false} ShrAnd(x: nat, y: nat, k: nat)
    ensures Shr(And(x, y), k) == And(Shr(x, k), Shr(y, k))
  {
    if k > 0 {
      ShrAnd(x, y, k - 1);
    }
  }

  lemma BitAnd(x: u32, y: u32, i: nat)
    requires 1 <= i <= 32
    ensures Bit(And(x, y), i) <==> Bit(x, i) && Bit(y, i)
  {
    ShrAnd(x, y, 32 - i);
  }

  /** The connected route registered for a device (Chapter2.go:82-83) covers exactly the
      addresses of the device's subnet. */
  lemma ConnectedRouteCoversSubnet(address: u32, mask: u32, len: nat, a: u32)
    requires Contiguous(mask, len)
    ensures Covers(And(address, mask), len, a) <==> And(a, mask) == And(address, mask)
  {
    var net, host := And(address, mask), And(a, mask);
    BitsEqual(a, net, len);
    BitsEqual(host, net, 32);
    forall i | 1 <= i <= 32
      ensures Bit(net, i) <==> Bit(address, i) && i <= len
      ensures Bit(host, i) <==> Bit(a, i) && i <= len
    {
      BitAnd(address, mask, i);
      BitAnd(a, mask, i);
    }
    if Bits(a, len) == Bits(net, len) {
      forall i | 0 <= i < 32
        ensures Bits(host, 32)[i] == Bits(net, 32)[i]
      {
        if i < len {
          assert Bits(a, len)[i] == Bits(net, len)[i];
        }
      }
      assert Bits(host, 32) == Bits(net, 32);
    }
    if host == net {
      assert Bits(a, len) == Bits(net, len);
    }
  }
}
