/** The `LineUs` class of `lineus/lineus.py`: one session with a Line-us machine over
    TCP port 1337, the requests built on the wire protocol, and `slow_search`, which
    probes every host address of the local networks in turn. */
module Session {
  import opened Options
  import opened Bytes
  import opened Text
  import opened Framing
  import opened Transport
  import opened Replies
  import opened Subnet
  import opened NetFinding
  import opened Discovery
  import Wire

  /** `__default_port`. */
  const DefaultPort: int := 1337

  /** The host `connect` dials: the name given, or else the ip (index 2) of the
      listener's first entry. */
  function Target(name: Option<string>, list: seq<LineUsEntry>): string
    requires name.Some? || list != []
  {
    if name.Some? then name.value else list[0].ip
  }

  /** The endpoint `slow_search` dials for one address: `str(ip)` on the default port. */
  function Probe(ip: Addr): Endpoint {
    Endpoint(Dotted(QuadOf(ip)), DefaultPort)
  }

  predicate Reachable(net: Network, ip: Addr) {
    Probe(ip) in net
  }

  /** A greeting stream `get_hello_string` turns into a dictionary with a `NAME` key. */
  predicate Named(stream: seq<Byte>) {
    Nul in stream && HelloParsable(Frame(stream)) &&
    HelloReply(Frame(stream)).Some? && "NAME" in HelloReply(Frame(stream)).value
  }

  function NameOf(stream: seq<Byte>): string
    requires Named(stream)
  {
    HelloReply(Frame(stream)).value["NAME"]
  }

  /** What `slow_search` needs of a machine answering at `ip` in order not to raise. */
  predicate ProbeSafe(net: Network, ip: Addr) {
    Reachable(net, ip) ==> Named(net[Probe(ip)])
  }

  predicate AllSafe(net: Network, ips: seq<Addr>) {
    forall k :: 0 <= k < |ips| ==> ProbeSafe(net, ips[k])
  }

  /** The tuple `slow_search` records for the address, if a machine answers there. */
  function ProbeResult(net: Network, ip: Addr): Option<LineUsEntry> {
    if Reachable(net, ip) && Named(net[Probe(ip)]) then
      var name := NameOf(net[Probe(ip)]);
      Some(LineUsEntry(name, name + ".local", Dotted(QuadOf(ip)), DefaultPort))
    else None
  }

  function Results(net: Network, ips: seq<Addr>): (r: seq<Option<LineUsEntry>>)
    ensures |r| == |ips| && forall k :: 0 <= k < |ips| ==> r[k] == ProbeResult(net, ips[k])
  {
    seq(|ips|, k requires 0 <= k < |ips| => ProbeResult(net, ips[k]))
  }

  /** The values present, in order. */
  function Present<T>(xs: seq<Option<T>>): seq<T> {
    if xs == [] then []
    else
      var n := |xs| - 1;
      Present(xs[..n]) + (if xs[n].Some? then [xs[n].value] else [])
  }

  lemma {:induction false} PresentAppend<T>(a: seq<Option<T>>, b: seq<Option<T>>)
    ensures Present(a + b) == Present(a) + Present(b)
    decreases |b|
  {
    if b == [] {
      assert a + b == a;
    } else {
      var n := |b| - 1;
      assert (a + b)[..|a + b| - 1] == a + b[..n];
      assert (a + b)[|a + b| - 1] == b[n];
      PresentAppend(a, b[..n]);
    }
  }

  lemma {:induction false} PresentExactly<T>(xs: seq<Option<T>>, e: T)
    ensures e in Present(xs) <==> exists k :: 0 <= k < |xs| && xs[k] == Some(e)
  {
    if xs != [] {
      var n := |xs| - 1;
      PresentExactly(xs[..n], e);
      if e in Present(xs[..n]) {
        var k :| 0 <= k < n && xs[..n][k] == Some(e);
        assert xs[k] == Some(e);
      }
      if exists k :: 0 <= k < |xs| && xs[k] == Some(e) {
        var k :| 0 <= k < |xs| && xs[k] == Some(e);
        if k < n {
          assert xs[..n][k] == Some(e);
        }
      }
    }
  }

  lemma {:induction false} PresentNone<T>(xs: seq<Option<T>>)
    ensures Present(xs) == [] <==> forall k :: 0 <= k < |xs| ==> xs[k].None?
  {
    if xs != [] {
      var n := |xs| - 1;
      PresentNone(xs[..n]);
      assert forall k :: 0 <= k < n ==> xs[..n][k] == xs[k];
    }
  }

  lemma PresentOne<T>(x: Option<T>)
    ensures Present([x]) == if x.Some? then [x.value] else []
  {
    assert [x][..0] == [];
  }

  lemma PresentAt<T>(xs: seq<Option<T>>, k: nat)
    requires k < |xs| && xs[k].Some?
    requires forall j :: 0 <= j < k ==> xs[j].None?
    ensures Present(xs) != [] && Present(xs)[0] == xs[k].value
  {
    assert xs == xs[..k] + [xs[k]] + xs[k + 1..];
    PresentAppend(xs[..k] + [xs[k]], xs[k + 1..]);
    PresentAppend(xs[..k], [xs[k]]);
    PresentNone(xs[..k]);
    assert [xs[k]][..0] == [];
  }

  lemma AppendParts<T>(s0: seq<T>, s1: seq<T>, s2: seq<T>, s3: seq<T>)
    requires |s0| <= |s1| <= |s2| <= |s3|
    requires s1[..|s0|] == s0 && s2[..|s1|] == s1 && s3[..|s2|] == s2
    ensures s3 == s0 + (s1[|s0|..] + s2[|s1|..] + s3[|s2|..])
  {
  }

  lemma SliceNext<T>(s: seq<T>, i: nat)
    requires i < |s|
    ensures s[..i + 1] == s[..i] + [s[i]]
  {
  }

  /** The machines found answering, in probe order. */
  function Hits(net: Network, ips: seq<Addr>): seq<LineUsEntry> {
    Present(Results(net, ips))
  }

  /** What `slow_search` returns: with `return_first` only the first hit, if any. The
      result is a start of the hits, all of them without `return_first`, at most one
      with it, and empty only when there are none. */
  function SearchResult(net: Network, ips: seq<Addr>, returnFirst: bool): (r: seq<LineUsEntry>)
    ensures |r| <= |Hits(net, ips)| && r == Hits(net, ips)[..|r|]
    ensures !returnFirst ==> r == Hits(net, ips)
    ensures returnFirst ==> |r| <= 1
    ensures r == [] <==> Hits(net, ips) == []
  {
    var hits := Hits(net, ips);
    if returnFirst && hits != [] then [hits[0]] else hits
  }

  /** Mapping a function over a concatenation maps each part. */
  lemma MapAppend<A, B>(ra: seq<B>, rb: seq<B>, rab: seq<B>, a: seq<A>, b: seq<A>, f: A -> B)
    requires |ra| == |a| && |rb| == |b| && |rab| == |a + b|
    requires forall k :: 0 <= k < |a| ==> ra[k] == f(a[k])
    requires forall k :: 0 <= k < |b| ==> rb[k] == f(b[k])
    requires forall k :: 0 <= k < |a + b| ==> rab[k] == f((a + b)[k])
    ensures rab == ra + rb
  {
    forall k | 0 <= k < |rab|
      ensures rab[k] == (ra + rb)[k]
    {
      if k >= |a| {
        assert (a + b)[k] == b[k - |a|];
      }
    }
  }

  lemma HitsAppend(net: Network, a: seq<Addr>, b: seq<Addr>)
    ensures Hits(net, a + b) == Hits(net, a) + Hits(net, b)
  {
    MapAppend(Results(net, a), Results(net, b), Results(net, a + b), a, b, ip => ProbeResult(net, ip));
    PresentAppend(Results(net, a), Results(net, b));
  }

  lemma HitsOne(net: Network, ip: Addr)
    ensures Hits(net, [ip]) == if ProbeResult(net, ip).Some? then [ProbeResult(net, ip).value] else []
  {
    assert Results(net, [ip]) == [ProbeResult(net, ip)];
    PresentOne(ProbeResult(net, ip));
  }

  lemma HitsNext(net: Network, ips: seq<Addr>, i: nat)
    requires i < |ips|
    ensures Hits(net, ips[..i + 1]) ==
      Hits(net, ips[..i]) + (if ProbeResult(net, ips[i]).Some? then [ProbeResult(net, ips[i]).value] else [])
  {
    SliceNext(ips, i);
    HitsAppend(net, ips[..i], [ips[i]]);
    HitsOne(net, ips[i]);
  }

  /** The first address that yields a machine decides the `return_first` result. */
  lemma FirstHitAt(net: Network, ips: seq<Addr>, i: nat)
    requires i < |ips| && Hits(net, ips[..i]) == [] && ProbeResult(net, ips[i]).Some?
    ensures SearchResult(net, ips, true) == [ProbeResult(net, ips[i]).value]
  {
    MapPrefix(Results(net, ips), Results(net, ips[..i]), ips, i, ip => ProbeResult(net, ip));
    PresentFirst(Results(net, ips), i);
  }

  /** Mapping a function over a prefix gives the prefix of the mapped sequence. */
  lemma MapPrefix<A, B>(r: seq<B>, rp: seq<B>, xs: seq<A>, i: nat, f: A -> B)
    requires i <= |xs| && |r| == |xs| && |rp| == i
    requires forall k :: 0 <= k < |xs| ==> r[k] == f(xs[k])
    requires forall k :: 0 <= k < i ==> rp[k] == f(xs[..i][k])
    ensures rp == r[..i]
  {
    forall k | 0 <= k < i
      ensures rp[k] == r[k]
    {
      assert xs[..i][k] == xs[k];
    }
  }

  /** When nothing is present before position `i`, the value at `i` comes first. */
  lemma PresentFirst<T>(xs: seq<Option<T>>, i: nat)
    requires i < |xs| && Present(xs[..i]) == [] && xs[i].Some?
    ensures Present(xs) != [] && Present(xs)[0] == xs[i].value
  {
    PresentNone(xs[..i]);
    assert forall j :: 0 <= j < i ==> xs[..i][j] == xs[j];
    PresentAt(xs, i);
  }

  /** A machine is found exactly when some probed address yields it, and every entry
      found is recorded as `NAME`, `NAME.local`, the address's text and port 1337. */
  lemma HitsExactly(net: Network, ips: seq<Addr>, e: LineUsEntry)
    ensures e in Hits(net, ips) <==> exists k :: 0 <= k < |ips| && ProbeResult(net, ips[k]) == Some(e)
    ensures e in Hits(net, ips) ==> e.port == DefaultPort && e.server == e.name + ".local"
  {
    PresentExactly(Results(net, ips), e);
  }

  /** The search comes back empty exactly when no probed address answers. */
  lemma NoHits(net: Network, ips: seq<Addr>, returnFirst: bool)
    requires AllSafe(net, ips)
    ensures SearchResult(net, ips, returnFirst) == [] <==> forall k :: 0 <= k < |ips| ==> !Reachable(net, ips[k])
  {
    PresentNone(Results(net, ips));
  }

  /** With `return_first` the search yields exactly the machine at the first address
      that answers. */
  lemma FirstHit(net: Network, ips: seq<Addr>, k: nat)
    requires AllSafe(net, ips)
    requires k < |ips| && Reachable(net, ips[k])
    requires forall j :: 0 <= j < k ==> !Reachable(net, ips[j])
    ensures ProbeResult(net, ips[k]).Some?
    ensures SearchResult(net, ips, true) == [ProbeResult(net, ips[k]).value]
  {
    assert ProbeSafe(net, ips[k]);
    PresentAt(Results(net, ips), k);
  }

  /** The first-match result is the start of the full result, at most one entry long. */
  lemma FirstIsPrefix(net: Network, ips: seq<Addr>)
    ensures |SearchResult(net, ips, true)| <= 1
    ensures SearchResult(net, ips, true) == SearchResult(net, ips, false)[..|SearchResult(net, ips, true)|]
  {
  }

  class LineUs {
    /** `__line_us`: `None` until the first `connect`, then the latest socket. */
    var sock: Socket?
    /** `__connected`, reported by `connected()`. */
    var connected: bool
    /** `line_us_name`, reported by `get_name()`. */
    var lineUsName: string
    /** `__hello_message`: the greeting frame read on connecting. */
    var helloMessage: seq<Byte>
    const listener: LineUsListener

    /** `LineUs()`: not connected, with an empty registry. */
    constructor ()
      ensures fresh(listener) && listener.lineUsList == [] && listener.callback == None
      ensures sock == null && !connected && lineUsName == "" && helloMessage == []
    {
      sock := null;
      connected := false;
      lineUsName := "";
      helloMessage := [];
      listener := new LineUsListener();
    }

    /** `connect(line_us_name)`: dial the target on port 1337 with a new socket. On
        success the session is connected to the target and holds the greeting frame;
        on failure it returns false and keeps its state, though the new, unconnected
        socket has replaced the old one. */
    method Connect(name: Option<string>, net: Network) returns (ok: bool)
      requires name.Some? || listener.lineUsList != []
      requires Endpoint(Target(name, listener.lineUsList), DefaultPort) in net ==>
        Nul in net[Endpoint(Target(name, listener.lineUsList), DefaultPort)]
      modifies this
      ensures sock != null && fresh(sock) && sock.sent == []
      ensures var ep := Endpoint(Target(name, listener.lineUsList), DefaultPort);
        (ok <==> ep in net) &&
        (ok ==> connected && lineUsName == ep.host && helloMessage == Frame(net[ep]) &&
                sock.state == Connected && sock.inbox == Rest(net[ep])) &&
        (!ok ==> connected == old(connected) && lineUsName == old(lineUsName) &&
                 helloMessage == old(helloMessage) && sock.state == Unconnected)
    {
      var target: string;
      if name.None? {
        var first := listener.GetFirstLineUs();
        target := first.value.ip;
      } else {
        target := name.value;
      }
      var s := new Socket();
      sock := s;
      ok := s.Connect(net, Endpoint(target, DefaultPort));
      if !ok {
        return;
      }
      connected := true;
      lineUsName := target;
      helloMessage := Wire.ReadResponse(s);
    }

    /** `disconnect()`: close the socket; `connected()` is false afterwards. */
    method Disconnect()
      requires sock != null
      modifies this, sock
      ensures !connected && sock == old(sock) && sock.state == Closed
      ensures lineUsName == old(lineUsName) && helloMessage == old(helloMessage)
    {
      sock.Close();
      connected := false;
    }

    /** `send_gcode(gcode, parameters)`. */
    method SendGcode(gcode: string, parameters: string) returns (reply: seq<Byte>)
      requires IsAscii(gcode) && IsAscii(parameters)
      requires sock != null && sock.state == Connected && Nul in sock.inbox
      modifies sock
      ensures sock.sent == old(sock.sent) + [Terminate(GcodeCommand(gcode, parameters))]
      ensures reply == Frame(old(sock.inbox)) && sock.inbox == Rest(old(sock.inbox))
      ensures sock.state == Connected
    {
      reply := Wire.SendGcode(sock, gcode, parameters);
    }

    /** `send_raw_gcode(gcode)`. */
    method SendRawGcode(gcode: string) returns (reply: seq<Byte>)
      requires IsAscii(gcode)
      requires sock != null && sock.state == Connected && Nul in sock.inbox
      modifies sock
      ensures sock.sent == old(sock.sent) + [Terminate(RawCommand(gcode))]
      ensures reply == Frame(old(sock.inbox)) && sock.inbox == Rest(old(sock.inbox))
      ensures sock.state == Connected
    {
      reply := Wire.SendRawGcode(sock, gcode);
    }

    /** `g01(x, y, z)`. */
    method G01(x: int, y: int, z: int)
      requires sock != null && sock.state == Connected && Nul in sock.inbox
      modifies sock
      ensures sock.sent == old(sock.sent) + [Terminate(G01Command(x, y, z))]
      ensures sock.inbox == Rest(old(sock.inbox)) && sock.state == Connected
    {
      Wire.G01(sock, x, y, z);
    }

    /** `save_to_lineus(gcode, position)`: `M28 S<position>`, each line of the gcode
        as a raw frame, then `M29`, each followed by reading its reply. */
    method SaveToLineus(gcode: string, position: int)
      requires IsAscii(gcode)
      requires sock != null && sock.state == Connected
      requires HasFrames(sock.inbox, |Lines(gcode)| + 2)
      modifies sock
      ensures sock.sent == old(sock.sent) + SaveFrames(gcode, position)
      ensures sock.inbox == Skip(old(sock.inbox), |Lines(gcode)| + 2)
      ensures sock.state == Connected
    {
      var lines := Lines(gcode);
      LinesAscii(gcode);
      IntToStringAscii(position);
      SaveFramesParts(gcode, position);
      SendSaved("S" + IntToString(position), lines);
    }

    /** `M28` with the given parameters, the lines as raw frames, then `M29`, reading
        the reply to each. */
    method SendSaved(parameters: string, lines: seq<string>)
      requires IsAscii(parameters) && AllAscii(lines)
      requires sock != null && sock.state == Connected && HasFrames(sock.inbox, |lines| + 2)
      modifies sock
      ensures sock.sent == old(sock.sent) +
        ([Terminate(GcodeCommand("M28", parameters))] + RawFrames(lines) + [Terminate(GcodeCommand("M29", ""))])
      ensures sock.inbox == Skip(old(sock.inbox), |lines| + 2) && sock.state == Connected
    {
      SaveSkips(sock.inbox, |lines|);
      ghost var before := sock.sent;
      var _ := SendGcode("M28", parameters);
      ghost var begin := sock.sent;
      SendLines(lines);
      ghost var middle := sock.sent;
      var _ := SendGcode("M29", "");
      AppendParts(before, begin, middle, sock.sent);
    }

    /** The loop of `save_to_lineus`: every line sent as a raw frame, each reply read. */
    method SendLines(lines: seq<string>)
      requires AllAscii(lines)
      requires sock != null && sock.state == Connected && HasFrames(sock.inbox, |lines|)
      modifies sock
      ensures sock.sent == old(sock.sent) + RawFrames(lines)
      ensures sock.inbox == Skip(old(sock.inbox), |lines|) && sock.state == Connected
    {
      ghost var start := sock.inbox;
      ghost var frames := RawFrames(lines);
      var i := 0;
      while i < |lines|
        invariant 0 <= i <= |lines|
        invariant sock.state == Connected
        invariant sock.sent == old(sock.sent) + frames[..i]
        invariant HasFrames(start, i) && sock.inbox == Skip(start, i)
      {
        FramesFewer(start, i + 1, |lines| - i - 1);
        SkipNext(start, i);
        assert frames[..i + 1] == frames[..i] + [Terminate(RawCommand(lines[i]))];
        var _ := SendRawGcode(lines[i]);
        i := i + 1;
      }
      assert frames[..i] == frames;
    }

    /** `get_info()`: send `M122` and parse the reply. */
    method GetInfo() returns (info: Option<map<string, string>>)
      requires sock != null && sock.state == Connected && Nul in sock.inbox
      requires InfoParsable(Frame(sock.inbox))
      modifies sock
      ensures sock.sent == old(sock.sent) + [Terminate(GcodeCommand("M122", ""))]
      ensures info == InfoReply(Frame(old(sock.inbox))) && sock.inbox == Rest(old(sock.inbox))
      ensures sock.state == Connected
    {
      var raw := SendGcode("M122", "");
      info := ParseInfo(raw);
    }

    /** `get_hello_string()`: `None` when not connected, else the parsed greeting. */
    method GetHelloString() returns (hello: Option<map<string, string>>)
      requires connected ==> HelloParsable(helloMessage)
      ensures !connected ==> hello == None
      ensures connected ==> hello == HelloReply(helloMessage)
    {
      if connected {
        hello := ParseHello(helloMessage);
      } else {
        hello := None;
      }
    }

    /** `list_lineus_files()`: send `M20` and parse the file listing. */
    method ListLineusFiles() returns (files: Option<seq<FileEntry>>)
      requires sock != null && sock.state == Connected && Nul in sock.inbox
      requires FilesParsable(Frame(sock.inbox))
      modifies sock
      ensures sock.sent == old(sock.sent) + [Terminate(GcodeCommand("M20", ""))]
      ensures files == FilesReply(Frame(old(sock.inbox))) && sock.inbox == Rest(old(sock.inbox))
      ensures sock.state == Connected
    {
      var raw := SendGcode("M20", "");
      files := ParseFileList(raw);
    }

    /** `on_found_line_us(callback)`: hand the callback to the listener. */
    method OnFoundLineUs(cb: Option<Callback>)
      modifies listener
      ensures listener.callback == cb && listener.lineUsList == old(listener.lineUsList)
      ensures listener.notified == old(listener.notified)
    {
      listener.OnFoundLineUs(cb);
    }

    /** `get_line_us_list()`: the listener's registry. */
    method GetLineUsList() returns (list: seq<LineUsEntry>)
      ensures list == listener.lineUsList
    {
      list := listener.GetLineUsList();
    }

    /** `slow_search(return_first)`: build a `NetFinder` (which appends the interfaces
        to the shared list once more), then dial every address of `get_all_ips()` in
        order and record each machine that answers, stopping at the first one when
        `return_first` is set. */
    method SlowSearch(returnFirst: bool, table: NetworkTable, infos: seq<IfaceInfo>, net: Network)
      returns (found: seq<LineUsEntry>)
      requires AllSafe(net, AllIps(table.networkList + Kept(infos)))
      modifies this, table
      ensures table.networkList == old(table.networkList) + Kept(infos)
      ensures found == SearchResult(net, AllIps(table.networkList), returnFirst)
      ensures LastConnected(found, old(connected), old(lineUsName), old(helloMessage), connected, lineUsName, helloMessage, net)
      ensures var ips := AllIps(table.networkList);
        (returnFirst && found != [] ==> SocketAt(net, Endpoint(found[0].ip, DefaultPort))) &&
        ((!returnFirst || found == []) && ips != [] ==> SocketAt(net, Probe(ips[|ips| - 1]))) &&
        (ips == [] ==> sock == old(sock))
    {
      var nets := new NetFinder(table, infos);
      var ips := nets.GetAllIps();
      found := ProbeAll(ips, returnFirst, net);
    }

    /** The loop of `slow_search` over the addresses: with `return_first` it stops at the
        first machine that answers, otherwise it probes every address. */
    method ProbeAll(ips: seq<Addr>, returnFirst: bool, net: Network) returns (found: seq<LineUsEntry>)
      requires AllSafe(net, ips)
      modifies this
      ensures found == SearchResult(net, ips, returnFirst)
      ensures LastConnected(found, old(connected), old(lineUsName), old(helloMessage), connected, lineUsName, helloMessage, net)
      ensures returnFirst && found != [] ==> SocketAt(net, Endpoint(found[0].ip, DefaultPort))
      ensures (!returnFirst || found == []) && ips != [] ==> SocketAt(net, Probe(ips[|ips| - 1]))
      ensures ips == [] ==> sock == old(sock)
    {
      if returnFirst {
        found := ProbeFirst(ips, net);
      } else {
        found := ProbeEvery(ips, net);
      }
    }

    /** The loop with `return_first`: it returns as soon as one address answers. */
    method ProbeFirst(ips: seq<Addr>, net: Network) returns (found: seq<LineUsEntry>)
      requires AllSafe(net, ips)
      modifies this
      ensures found == SearchResult(net, ips, true)
      ensures LastConnected(found, old(connected), old(lineUsName), old(helloMessage), connected, lineUsName, helloMessage, net)
      ensures found != [] ==> SocketAt(net, Endpoint(found[0].ip, DefaultPort))
      ensures found == [] && ips != [] ==> SocketAt(net, Probe(ips[|ips| - 1]))
      ensures ips == [] ==> sock == old(sock)
    {
      var i := 0;
      while i < |ips|
        invariant 0 <= i <= |ips|
        invariant Hits(net, ips[..i]) == []
        invariant connected == old(connected) && lineUsName == old(lineUsName) && helloMessage == old(helloMessage)
        invariant i > 0 ==> SocketAt(net, Probe(ips[i - 1]))
        invariant i == 0 ==> sock == old(sock)
      {
        HitsNext(net, ips, i);
        var hit := ProbeAddress(ips[i], net);
        if hit.Some? {
          FirstHitAt(net, ips, i);
          return [hit.value];
        }
        i := i + 1;
      }
      assert ips[..i] == ips;
      found := [];
    }

    /** The loop without `return_first`: every address is probed and every answer kept. */
    method ProbeEvery(ips: seq<Addr>, net: Network) returns (found: seq<LineUsEntry>)
      requires AllSafe(net, ips)
      modifies this
      ensures found == SearchResult(net, ips, false)
      ensures LastConnected(found, old(connected), old(lineUsName), old(helloMessage), connected, lineUsName, helloMessage, net)
      ensures ips != [] ==> SocketAt(net, Probe(ips[|ips| - 1]))
      ensures ips == [] ==> sock == old(sock)
    {
      ghost var c0, n0, h0 := connected, lineUsName, helloMessage;
      found := [];
      var i := 0;
      while i < |ips|
        invariant 0 <= i <= |ips|
        invariant found == Hits(net, ips[..i])
        invariant LastConnected(found, c0, n0, h0, connected, lineUsName, helloMessage, net)
        invariant i > 0 ==> SocketAt(net, Probe(ips[i - 1]))
        invariant i == 0 ==> sock == old(sock)
      {
        HitsNext(net, ips, i);
        var hit := ProbeAddress(ips[i], net);
        if hit.Some? {
          found := found + [hit.value];
        }
        i := i + 1;
      }
      assert ips[..i] == ips;
    }

    /** The session after a search that found `found`: connected, named after the last
        machine found and holding its greeting, or as it was before when none was. */
    static ghost predicate LastConnected(found: seq<LineUsEntry>, c0: bool, n0: string, h0: seq<Byte>,
                                         c: bool, n: string, h: seq<Byte>, net: Network)
    {
      if found == [] then c == c0 && n == n0 && h == h0
      else
        var ep := Endpoint(found[|found| - 1].ip, DefaultPort);
        c && n == ep.host && ep in net && Nul in net[ep] && h == Frame(net[ep])
    }

    /** The socket left by the last `connect` to `ep`: nothing sent on it, connected with
        the rest of the endpoint's stream exactly when the endpoint answers, else never
        connected. */
    ghost predicate SocketAt(net: Network, ep: Endpoint)
      reads this, sock
    {
      sock != null && sock.sent == [] &&
      (ep in net ==> sock.state == Connected && Nul in net[ep] && sock.inbox == Rest(net[ep])) &&
      (ep !in net ==> sock.state == Unconnected)
    }

    /** The body of `slow_search`'s loop for one address: connect to it and, when that
        succeeds, build the tuple from the greeting's `NAME`. */
    method ProbeAddress(ip: Addr, net: Network) returns (hit: Option<LineUsEntry>)
      requires ProbeSafe(net, ip)
      modifies this
      ensures hit == ProbeResult(net, ip)
      ensures hit.None? ==>
        connected == old(connected) && lineUsName == old(lineUsName) && helloMessage == old(helloMessage)
      ensures hit.Some? ==>
        Probe(ip) == Endpoint(hit.value.ip, DefaultPort) &&
        connected && lineUsName == hit.value.ip && helloMessage == Frame(net[Probe(ip)])
      ensures fresh(sock) && SocketAt(net, Probe(ip))
    {
      var target := Dotted(QuadOf(ip));
      var ok := Connect(Some(target), net);
      if !ok {
        return None;
      }
      var hello := GetHelloString();
      var name := hello.value["NAME"];
      hit := Some(LineUsEntry(name, name + ".local", target, DefaultPort));
    }

    /** `get_network_list()` (a static method): it constructs a `NetFinder`, so the
        interfaces are appended to the shared list before it is returned. */
    static method GetNetworkList(table: NetworkTable, infos: seq<IfaceInfo>) returns (list: seq<Interface>)
      modifies table
      ensures table.networkList == old(table.networkList) + Kept(infos)
      ensures list == table.networkList
    {
      var nets := new NetFinder(table, infos);
      list := nets.GetNetworkList();
    }
  }
}
