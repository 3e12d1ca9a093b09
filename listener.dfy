/** `LineUsListener`: the registry of Line-us machines announced over zeroconf.
    A resolved announcement arrives as a `ServiceInfo`; the registry keeps one
    `(name, server, ip, port)` entry per announcement, oldest first. */
module Discovery {
  import opened Options
  import opened Bytes
  import opened Text
  import opened Subnet

  /** A resolved zeroconf service: its server name (`lineus.local.`), its IPv4
      address and its port. */
  datatype ServiceInfo = ServiceInfo(server: string, address: Quad, port: int)

  /** `(line_us_name, server, ip, port)`. */
  datatype LineUsEntry = LineUsEntry(name: string, server: string, ip: string, port: int)

  /** A callback registered with `on_found_line_us`, known by an identity of its own. */
  type Callback = nat

  /** The entry built for a service: the server up to its first `.`, the server,
      `socket.inet_ntoa` of the address, and the port. The name is the server's first
      label: a dot-free start of the server that is all of it or is followed by `.`;
      the ip splits on `.` into the address's four octets in decimal. */
  function EntryOf(info: ServiceInfo): (e: LineUsEntry)
    ensures e.server == info.server && e.port == info.port
    ensures '.' !in e.name && |e.name| <= |info.server| && info.server[..|e.name|] == e.name
    ensures |e.name| < |info.server| ==> info.server[|e.name|] == '.'
    ensures Split(e.ip, '.') == [NatToString(info.address.a), NatToString(info.address.b),
      NatToString(info.address.c), NatToString(info.address.d)]
  {
    DottedParts(info.address);
    LineUsEntry(Before(info.server, '.'), info.server, Dotted(info.address), info.port)
  }

  /** The name of an entry is the first label of its server, and its ip is the dotted
      text of the address, which splits back into the four octets. */
  lemma EntryOfLabels(host: string, rest: string, address: Quad, port: int)
    requires '.' !in host
    ensures EntryOf(ServiceInfo(host + "." + rest, address, port)).name == host
    ensures Split(EntryOf(ServiceInfo(host + "." + rest, address, port)).ip, '.') ==
      [NatToString(address.a), NatToString(address.b), NatToString(address.c), NatToString(address.d)]
  {
    assert host + "." + rest == host + ['.'] + rest;
    SplitCons(host, '.', rest);
    DottedParts(address);
  }

  /** `get_first_line_us()`: the oldest entry, or `None` for an empty registry. */
  function First(list: seq<LineUsEntry>): Option<LineUsEntry> {
    if list == [] then None else Some(list[0])
  }

  /** Later announcements never change the first entry. */
  lemma FirstIsOldest(list: seq<LineUsEntry>, later: seq<LineUsEntry>)
    ensures First(list + later) == if list == [] then First(later) else First(list)
  {
    if list == [] {
      assert list + later == later;
    }
  }

  /** Index of the first occurrence of `e`: the element `list.remove` takes out. */
  function FirstIndex(list: seq<LineUsEntry>, e: LineUsEntry): (i: nat)
    requires e in list
    ensures i < |list| && list[i] == e && e !in list[..i]
  {
    if list[0] == e then 0
    else
      var i := 1 + FirstIndex(list[1..], e);
      assert list[..i] == [list[0]] + list[1..][..i - 1];
      i
  }

  /** `list.remove(e)`: the list without the first occurrence of `e`. */
  function RemoveFirst(list: seq<LineUsEntry>, e: LineUsEntry): seq<LineUsEntry>
    requires e in list
  {
    var i := FirstIndex(list, e);
    list[..i] + list[i + 1..]
  }

  /** Removing drops exactly one copy of the entry and keeps the rest in order. */
  lemma RemoveFirstCounts(list: seq<LineUsEntry>, e: LineUsEntry)
    requires e in list
    ensures |RemoveFirst(list, e)| == |list| - 1
    ensures multiset(RemoveFirst(list, e)) == multiset(list) - multiset{e}
  {
    var i := FirstIndex(list, e);
    assert list == list[..i] + [e] + list[i + 1..];
    assert multiset(list) == multiset(list[..i]) + multiset{e} + multiset(list[i + 1..]);
  }

  /** Removing the entry that was just announced, when it was not known before,
      gives back the registry as it was. */
  lemma RemoveUndoesAdd(list: seq<LineUsEntry>, e: LineUsEntry)
    requires e !in list
    ensures e in list + [e] && RemoveFirst(list + [e], e) == list
  {
    var l := list + [e];
    assert l[|list|] == e;
    assert l[..|list|] == list;
    var i := FirstIndex(l, e);
    assert i == |list|;
  }

  class LineUsListener {
    var callback: Option<Callback>
    var lineUsList: seq<LineUsEntry>
    /** Every call made to a callback, oldest first, with the entry passed to it. */
    var notified: seq<(Callback, LineUsEntry)>

    constructor ()
      ensures callback == None && lineUsList == [] && notified == []
    {
      callback := None;
      lineUsList := [];
      notified := [];
    }

    /** `add_service`: append the entry, then call the callback once with it if one is set. */
    method AddService(info: ServiceInfo)
      modifies this
      ensures lineUsList == old(lineUsList) + [EntryOf(info)]
      ensures callback == old(callback)
      ensures notified == old(notified) + (if callback.Some? then [(callback.value, EntryOf(info))] else [])
    {
      var entry := EntryOf(info);
      lineUsList := lineUsList + [entry];
      if callback.Some? {
        notified := notified + [(callback.value, entry)];
      }
    }

    /** `remove_service`: take out the first equal entry; when there is none,
      `list.remove` raises `ValueError` (`removed` is false) and nothing changes. */
    method RemoveService(info: ServiceInfo) returns (removed: bool)
      modifies this
      ensures removed <==> EntryOf(info) in old(lineUsList)
      ensures removed ==> lineUsList == RemoveFirst(old(lineUsList), EntryOf(info))
      ensures !removed ==> lineUsList == old(lineUsList)
      ensures callback == old(callback) && notified == old(notified)
    {
      var entry := EntryOf(info);
      var i := 0;
      while i < |lineUsList| && lineUsList[i] != entry
        invariant 0 <= i <= |lineUsList|
        invariant entry !in lineUsList[..i]
      {
        assert lineUsList[..i + 1] == lineUsList[..i] + [lineUsList[i]];
        i := i + 1;
      }
      if i == |lineUsList| {
        assert lineUsList[..i] == lineUsList;
        return false;
      }
      assert FirstIndex(lineUsList, entry) == i;
      lineUsList := lineUsList[..i] + lineUsList[i + 1..];
      removed := true;
    }

    /** `on_found_line_us`: register (or, with `None`, clear) the callback. */
    method OnFoundLineUs(cb: Option<Callback>)
      modifies this
      ensures callback == cb && lineUsList == old(lineUsList) && notified == old(notified)
    {
      callback := cb;
    }

    /** `get_first_line_us`. */
    method GetFirstLineUs() returns (first: Option<LineUsEntry>)
      ensures first == First(lineUsList)
      ensures first.Some? <==> lineUsList != []
    {
      if |lineUsList| > 0 {
        first := Some(lineUsList[0]);
      } else {
        first := None;
      }
    }

    /** `get_line_us(number)`: Python indexing, a negative number counting from the end;
        an index out of range raises `IndexError`. */
    method GetLineUs(number: int) returns (entry: LineUsEntry)
      requires -|lineUsList| <= number < |lineUsList|
      ensures 0 <= number ==> entry == lineUsList[number]
      ensures number < 0 ==> entry == lineUsList[|lineUsList| + number]
    {
      if number < 0 {
        entry := lineUsList[|lineUsList| + number];
      } else {
        entry := lineUsList[number];
      }
    }

    /** `get_line_us_list`: the registry's own list. */
    method GetLineUsList() returns (list: seq<LineUsEntry>)
      ensures list == lineUsList
    {
      list := lineUsList;
    }
  }
}
