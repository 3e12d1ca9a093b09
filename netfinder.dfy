/** `NetFinder`: the IPv4 interfaces worth scanning, kept in a list shared by every
    instance, and every host address on them. */
module NetFinding {
  import opened Options
  import opened Text
  import opened Subnet

  /** The first `AF_INET` entry netifaces reports for an interface; a key it leaves
      out is `None`. */
  datatype InetRecord = InetRecord(addr: Option<Quad>, netmask: Option<Quad>, broadcast: Option<Quad>)

  /** One name of `netifaces.interfaces()`, with its first `AF_INET` entry when it has one. */
  datatype IfaceInfo = IfaceInfo(name: string, inet: Option<InetRecord>)

  /** The detail dictionary of a kept interface: `name`, `addr`, `netmask`, `broadcast`. */
  datatype Interface = Interface(name: string, addr: Quad, netmask: Quad, broadcast: Quad)

  /** The detail the constructor appends for one interface, or `None` when it skips it.
      An interface is kept exactly when it has an IPv4 address, netmask and broadcast
      address and its address is not in 127.0.0.0/8; the detail copies those fields. */
  function DetailOf(info: IfaceInfo): (r: Option<Interface>)
    ensures r.Some? <==>
      info.inet.Some? && info.inet.value.addr.Some? && info.inet.value.netmask.Some? &&
      info.inet.value.broadcast.Some? && info.inet.value.addr.value.a != 127
    ensures r.Some? ==>
      r.value.name == info.name && r.value.addr == info.inet.value.addr.value &&
      r.value.netmask == info.inet.value.netmask.value && r.value.broadcast == info.inet.value.broadcast.value
  {
    match info.inet
    case None => None
    case Some(rec) =>
      if rec.addr.None? || rec.netmask.None? || rec.broadcast.None? then None
      else
        LoopbackPrefix(rec.addr.value);
        if StartsWith(Dotted(rec.addr.value), "127") then None
        else Some(Interface(info.name, rec.addr.value, rec.netmask.value, rec.broadcast.value))
  }

  /** The details the constructor appends, in the order of the interfaces. */
  function Kept(infos: seq<IfaceInfo>): seq<Interface> {
    Collect(infos, DetailOf)
  }

  /** The values `f` yields over `xs`, in order, skipping the `None`s. */
  function Collect<A, B>(xs: seq<A>, f: A -> Option<B>): seq<B> {
    if xs == [] then []
    else
      var n := |xs| - 1;
      Collect(xs[..n], f) + (if f(xs[n]).Some? then [f(xs[n]).value] else [])
  }

  /** A value is collected exactly when some element yields it. */
  lemma {:induction false} CollectExactly<A, B>(xs: seq<A>, f: A -> Option<B>, y: B)
    ensures y in Collect(xs, f) <==> exists k :: 0 <= k < |xs| && f(xs[k]) == Some(y)
  {
    if xs != [] {
      var n := |xs| - 1;
      CollectExactly(xs[..n], f, y);
      if y in Collect(xs[..n], f) {
        var k :| 0 <= k < n && f(xs[..n][k]) == Some(y);
        assert f(xs[k]) == Some(y);
      }
      if exists k :: 0 <= k < |xs| && f(xs[k]) == Some(y) {
        var k :| 0 <= k < |xs| && f(xs[k]) == Some(y);
        if k < n {
          assert f(xs[..n][k]) == Some(y);
        }
      }
    }
  }

  /** An interface detail is appended exactly when some interface yields it. */
  lemma KeptExactly(infos: seq<IfaceInfo>, x: Interface)
    ensures x in Kept(infos) <==> exists k :: 0 <= k < |infos| && DetailOf(infos[k]) == Some(x)
  {
    CollectExactly(infos, DetailOf, x);
  }

  /** The class attribute `NetFinder.network_list`: one list that every `NetFinder`
      appends to and reads from. */
  class NetworkTable {
    var networkList: seq<Interface>

    constructor ()
      ensures networkList == []
    {
      networkList := [];
    }
  }

  /** The host addresses `get_all_ips()` lists for one interface: the hosts of
      `addr/netmask_to_cidr(netmask)`. */
  function InterfaceHosts(i: Interface): seq<Addr> {
    NetmaskOfQuad(i.netmask);
    Hosts(Value(i.addr), NetmaskToCidr(Dotted(i.netmask)))
  }

  /** An interface with a contiguous netmask of `p <= 30` bits contributes
      2^(32-p) - 2 addresses, none of them its network or broadcast address. */
  lemma InterfaceHostsCount(i: Interface, p: nat, h: Addr)
    requires p <= 30 && i.netmask == PrefixMask(p)
    ensures |InterfaceHosts(i)| == Pow2(32 - p) - 2
    ensures h in InterfaceHosts(i) <==>
      h / BlockSize(p) == Value(i.addr) / BlockSize(p) && h % BlockSize(p) != 0 && h % BlockSize(p) != BlockSize(p) - 1
  {
    NetmaskOfPrefix(p);
    HostsCount(Value(i.addr), p);
    HostsExactly(Value(i.addr), p, h);
  }

  /** The host lists one after the other. */
  function Flatten(xs: seq<seq<Addr>>): seq<Addr> {
    if xs == [] then [] else Flatten(xs[..|xs| - 1]) + xs[|xs| - 1]
  }

  lemma {:induction false} FlattenAppend(xs: seq<seq<Addr>>, ys: seq<seq<Addr>>)
    ensures Flatten(xs + ys) == Flatten(xs) + Flatten(ys)
    decreases |ys|
  {
    if ys != [] {
      var n := |ys| - 1;
      assert (xs + ys)[..|xs + ys| - 1] == xs + ys[..n];
      assert (xs + ys)[|xs + ys| - 1] == ys[n];
      FlattenAppend(xs, ys[..n]);
      calc {
        Flatten(xs + ys);
        Flatten(xs + ys[..n]) + ys[n];
        Flatten(xs) + Flatten(ys[..n]) + ys[n];
        Flatten(xs) + (Flatten(ys[..n]) + ys[n]);
        Flatten(xs) + Flatten(ys);
      }
    } else {
      assert xs + ys == xs;
    }
  }

  lemma FlattenOne(x: seq<Addr>)
    ensures Flatten([x]) == x
  {
    assert [x][..0] == [];
  }

  lemma {:induction false} FlattenExactly(xs: seq<seq<Addr>>, h: Addr)
    ensures h in Flatten(xs) <==> exists k :: 0 <= k < |xs| && h in xs[k]
  {
    if xs != [] {
      var n := |xs| - 1;
      FlattenExactly(xs[..n], h);
      if h in Flatten(xs[..n]) {
        var k :| 0 <= k < n && h in xs[..n][k];
        assert h in xs[k];
      }
      if exists k :: 0 <= k < |xs| && h in xs[k] {
        var k :| 0 <= k < |xs| && h in xs[k];
        if k < n {
          assert h in xs[..n][k];
        }
      }
    }
  }

  function HostLists(list: seq<Interface>): (r: seq<seq<Addr>>)
    ensures |r| == |list| && forall k :: 0 <= k < |list| ==> r[k] == InterfaceHosts(list[k])
  {
    seq(|list|, k requires 0 <= k < |list| => InterfaceHosts(list[k]))
  }

  /** Every interface's hosts, interface by interface in list order: an address is
      listed exactly when it is a host of some interface in the list. */
  function AllIps(list: seq<Interface>): (r: seq<Addr>)
    ensures forall h :: h in r <==> exists k :: 0 <= k < |list| && h in InterfaceHosts(list[k])
  {
    FlattenAll(HostLists(list));
    Flatten(HostLists(list))
  }

  lemma FlattenAll(xs: seq<seq<Addr>>)
    ensures forall h :: h in Flatten(xs) <==> exists k :: 0 <= k < |xs| && h in xs[k]
  {
    forall h {
      FlattenExactly(xs, h);
    }
  }

  lemma AllIpsAppend(a: seq<Interface>, b: seq<Interface>)
    ensures AllIps(a + b) == AllIps(a) + AllIps(b)
  {
    assert HostLists(a + b) == HostLists(a) + HostLists(b);
    FlattenAppend(HostLists(a), HostLists(b));
  }

  lemma AllIpsNext(list: seq<Interface>, i: nat)
    requires i < |list|
    ensures AllIps(list[..i + 1]) == AllIps(list[..i]) + InterfaceHosts(list[i])
  {
    assert list[..i + 1] == list[..i] + [list[i]];
    AllIpsAppend(list[..i], [list[i]]);
    assert HostLists([list[i]]) == [InterfaceHosts(list[i])];
    FlattenOne(InterfaceHosts(list[i]));
  }

  /** Because the list is shared, scanning the same interfaces a second time lists
      every one of their hosts a second time. */
  lemma SecondScanRepeats(list: seq<Interface>, infos: seq<IfaceInfo>)
    ensures AllIps(list + Kept(infos) + Kept(infos)) == AllIps(list) + AllIps(Kept(infos)) + AllIps(Kept(infos))
  {
    AllIpsAppend(list + Kept(infos), Kept(infos));
    AllIpsAppend(list, Kept(infos));
  }

  class NetFinder {
    const table: NetworkTable

    /** `NetFinder()`: append the detail of every kept interface to the shared list. */
    constructor (table: NetworkTable, infos: seq<IfaceInfo>)
      modifies table
      ensures this.table == table
      ensures table.networkList == old(table.networkList) + Kept(infos)
    {
      this.table := table;
      new;
      var i := 0;
      while i < |infos|
        invariant 0 <= i <= |infos|
        invariant table.networkList == old(table.networkList) + Kept(infos[..i])
      {
        assert infos[..i + 1][..i] == infos[..i];
        var detail := DetailOf(infos[i]);
        if detail.Some? {
          table.networkList := table.networkList + [detail.value];
        }
        i := i + 1;
      }
      assert infos[..i] == infos;
    }

    /** `get_network_list()`: the shared list itself, holding what every instance appended. */
    method GetNetworkList() returns (list: seq<Interface>)
      ensures list == table.networkList
    {
      list := table.networkList;
    }

    /** `get_all_ips()`: every host of every listed interface, in list order. */
    method GetAllIps() returns (ips: seq<Addr>)
      ensures ips == AllIps(table.networkList)
    {
      var list := table.networkList;
      ips := [];
      var i := 0;
      while i < |list|
        invariant 0 <= i <= |list|
        invariant ips == AllIps(list[..i])
      {
        AllIpsNext(list, i);
        ips := AppendEach(ips, InterfaceHosts(list[i]));
        i := i + 1;
      }
      assert list[..i] == list;
    }
  }

  /** `for host in hosts: ips.append(host)`. */
  method AppendEach(ips: seq<Addr>, hosts: seq<Addr>) returns (r: seq<Addr>)
    ensures r == ips + hosts
  {
    r := ips;
    var j := 0;
    while j < |hosts|
      invariant 0 <= j <= |hosts|
      invariant r == ips + hosts[..j]
    {
      assert hosts[..j + 1] == hosts[..j] + [hosts[j]];
      r := r + [hosts[j]];
      j := j + 1;
    }
    assert hosts[..j] == hosts;
  }
}
